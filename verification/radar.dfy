/** The decision logic of `radar.py`: the presence test and its rising-edge
    detector in the sampler, the per-window accumulator, the writer's
    swap-and-average step with the record it stores, and the rate limits of
    the motion callback. The radar client, the database client, the frame
    grab, the mail reporter and the files are outside the model; their
    outcomes are parameters. */
module Radar {
  import opened Wrappers
  import Clock
  import PyText
  import Decimal
  import Camera
  import MotionBlock
  import EmailToken
  import DeviceData

  // ------------------------------------------------------------- presence

  /** The constructor arguments the logic depends on. */
  datatype Config = Config(startM: real, endM: real, writePeriod: real)

  const Defaults: Config := Config(0.1, 0.35, 2.0)

  /** Near-field clutter margin at both ends of the range, in metres. */
  const DistanceMargin: real := 0.02

  const MinActivity: real := 0.8

  /** What the processor reports for one frame. */
  datatype Reading = Reading(detected: bool, distance: real, intra: real, inter: real,
                             temperature: real, breathing: Option<real>)

  /** The activity of a frame: the larger of the two presence scores. */
  function Activity(rd: Reading): (a: real)
    ensures a >= rd.intra && a >= rd.inter
    ensures a == rd.intra || a == rd.inter
  {
    if rd.intra >= rd.inter then rd.intra else rd.inter
  }

  /** `presence_valid`: detected, strictly inside the range shrunk by the
      margin at both ends, and active enough. */
  predicate Valid(cfg: Config, rd: Reading)
  {
    && rd.detected
    && cfg.startM + DistanceMargin < rd.distance < cfg.endM - DistanceMargin
    && Activity(rd) >= MinActivity
  }

  /** `_presence_prev` and whether `_presence_event` is set. */
  datatype Edge = Edge(prev: bool, event: bool)

  /** The edge detector: the event is set on a false-to-true change of
      validity, and the remembered value follows validity. */
  function Detect(e: Edge, valid: bool): (r: Edge)
    ensures r.prev == valid
    ensures r.event <==> e.event || (valid && !e.prev)
  {
    if valid && !e.prev then Edge(true, true)
    else if !valid then e.(prev := false)
    else e
  }

  function DetectAll(e: Edge, vs: seq<bool>): Edge
    decreases |vs|
  {
    if |vs| == 0 then e else DetectAll(Detect(e, vs[0]), vs[1..])
  }

  /** Position `i` of `vs` is a rising edge when validity before it (`prev`
      before the first) was false. */
  predicate Rising(prev: bool, vs: seq<bool>, i: nat)
    requires i < |vs|
  {
    vs[i] && !(if i == 0 then prev else vs[i - 1])
  }

  /** Over a run of frames with no watcher clearing it, the event ends up set
      exactly when it was set already or some frame was a rising edge. */
  lemma {:induction false} EventIffRisingEdge(e: Edge, vs: seq<bool>)
    ensures DetectAll(e, vs).event <==> e.event || exists i :: 0 <= i < |vs| && Rising(e.prev, vs, i)
    ensures |vs| > 0 ==> DetectAll(e, vs).prev == vs[|vs| - 1]
    decreases |vs|
  {
    if |vs| > 0 {
      var e1 := Detect(e, vs[0]);
      EventIffRisingEdge(e1, vs[1..]);
      assert forall i :: 1 <= i < |vs| ==> (Rising(e.prev, vs, i) <==> Rising(e1.prev, vs[1..], i - 1));
      if exists i :: 0 <= i < |vs[1..]| && Rising(e1.prev, vs[1..], i) {
        var i :| 0 <= i < |vs[1..]| && Rising(e1.prev, vs[1..], i);
        assert Rising(e.prev, vs, i + 1);
      }
      if e1.event && !e.event {
        assert Rising(e.prev, vs, 0);
      }
      if exists i :: 0 <= i < |vs| && Rising(e.prev, vs, i) {
        var i :| 0 <= i < |vs| && Rising(e.prev, vs, i);
        if i == 0 {
          assert e1.event;
        } else {
          assert Rising(e1.prev, vs[1..], i - 1);
        }
      }
      if |vs| > 1 {
        assert vs[1..][|vs[1..]| - 1] == vs[|vs| - 1];
      }
    }
  }

  // ---------------------------------------------------------- accumulator

  /** `_accum`. */
  datatype Accum = Accum(count: nat, activitySum: real, tempSum: real, distanceSum: real,
                         distanceCount: nat, bpmSum: real, bpmCount: nat, presenceAny: bool)

  const Zero: Accum := Accum(0, 0.0, 0.0, 0.0, 0, 0.0, 0, false)

  /** The sampler's update for one frame. */
  function Add(cfg: Config, a: Accum, rd: Reading): (r: Accum)
    ensures r.count == a.count + 1
    ensures r.activitySum == a.activitySum + Activity(rd) && r.tempSum == a.tempSum + rd.temperature
    ensures r.distanceCount == a.distanceCount + (if Valid(cfg, rd) then 1 else 0)
    ensures r.distanceSum == a.distanceSum + (if Valid(cfg, rd) then rd.distance else 0.0)
    ensures r.bpmCount == a.bpmCount + (if rd.breathing.Some? then 1 else 0)
    ensures r.bpmSum == a.bpmSum + (if rd.breathing.Some? then rd.breathing.value else 0.0)
    ensures r.presenceAny <==> a.presenceAny || Valid(cfg, rd)
  {
    var valid := Valid(cfg, rd);
    var activity := Activity(rd);
    var a1 := a.(count := a.count + 1, activitySum := a.activitySum + activity, tempSum := a.tempSum + rd.temperature);
    var a2 := if valid then a1.(distanceSum := a1.distanceSum + rd.distance, distanceCount := a1.distanceCount + 1) else a1;
    var a3 := if rd.breathing.Some? then a2.(bpmSum := a2.bpmSum + rd.breathing.value, bpmCount := a2.bpmCount + 1) else a2;
    if valid then a3.(presenceAny := true) else a3
  }

  function Fold(cfg: Config, a: Accum, rds: seq<Reading>): Accum
    decreases |rds|
  {
    if |rds| == 0 then a else Fold(cfg, Add(cfg, a, rds[0]), rds[1..])
  }

  function ValidCount(cfg: Config, rds: seq<Reading>): nat
  {
    if |rds| == 0 then 0 else (if Valid(cfg, rds[0]) then 1 else 0) + ValidCount(cfg, rds[1..])
  }

  function BreathCount(rds: seq<Reading>): nat
  {
    if |rds| == 0 then 0 else (if rds[0].breathing.Some? then 1 else 0) + BreathCount(rds[1..])
  }

  /** The distances of the valid frames, added up. */
  function DistanceTotal(cfg: Config, rds: seq<Reading>): real
  {
    if |rds| == 0 then 0.0 else (if Valid(cfg, rds[0]) then rds[0].distance else 0.0) + DistanceTotal(cfg, rds[1..])
  }

  /** The breathing rates that were reported, added up. */
  function BreathTotal(rds: seq<Reading>): real
  {
    if |rds| == 0 then 0.0 else (if rds[0].breathing.Some? then rds[0].breathing.value else 0.0) + BreathTotal(rds[1..])
  }

  function ActivityTotal(rds: seq<Reading>): real
  {
    if |rds| == 0 then 0.0 else Activity(rds[0]) + ActivityTotal(rds[1..])
  }

  /** After a run of frames the accumulator has counted every frame, the
      valid ones and the ones with a breathing rate, has added up the
      activity, the distances of the valid frames and the reported rates,
      and `presence_any` says whether any frame was valid. */
  lemma {:induction false} FoldCounts(cfg: Config, a: Accum, rds: seq<Reading>)
    ensures Fold(cfg, a, rds).count == a.count + |rds|
    ensures Fold(cfg, a, rds).distanceCount == a.distanceCount + ValidCount(cfg, rds)
    ensures Fold(cfg, a, rds).bpmCount == a.bpmCount + BreathCount(rds)
    ensures Fold(cfg, a, rds).activitySum == a.activitySum + ActivityTotal(rds)
    ensures Fold(cfg, a, rds).distanceSum == a.distanceSum + DistanceTotal(cfg, rds)
    ensures Fold(cfg, a, rds).bpmSum == a.bpmSum + BreathTotal(rds)
    ensures Fold(cfg, a, rds).presenceAny <==> a.presenceAny || exists i :: 0 <= i < |rds| && Valid(cfg, rds[i])
    decreases |rds|
  {
    if |rds| > 0 {
      FoldCounts(cfg, Add(cfg, a, rds[0]), rds[1..]);
      if exists i :: 0 <= i < |rds[1..]| && Valid(cfg, rds[1..][i]) {
        var i :| 0 <= i < |rds[1..]| && Valid(cfg, rds[1..][i]);
        assert Valid(cfg, rds[i + 1]);
      }
      if exists i :: 0 <= i < |rds| && Valid(cfg, rds[i]) {
        var i :| 0 <= i < |rds| && Valid(cfg, rds[i]);
        if i > 0 {
          assert Valid(cfg, rds[1..][i - 1]);
        }
      }
    }
  }

  // ----------------------------------------------------------- the threads

  /** The shared state of the sampler and the writer: the edge detector,
      `_latest`, `_accum` and the writer's `next_write`. */
  datatype State = State(edge: Edge, latest: Option<Reading>, accum: Accum, nextWrite: real)

  /** One pass of `_sampler`. */
  function SampleStep(cfg: Config, s: State, rd: Reading): (r: State)
    ensures r.edge == Detect(s.edge, Valid(cfg, rd))
    ensures r.latest == Some(rd) && r.accum == Add(cfg, s.accum, rd) && r.nextWrite == s.nextWrite
  {
    State(Detect(s.edge, Valid(cfg, rd)), Some(rd), Add(cfg, s.accum, rd), s.nextWrite)
  }

  /** The arguments `store_radar_data` receives. */
  datatype Averages = Averages(presence: bool, distance: Option<real>, bpm: Option<real>,
                               activity: real, temperature: real)

  /** One pass of `_writer` at time `now`. Before `next_write` nothing
      happens. Otherwise the accumulator is swapped for a zeroed one,
      averages are stored only when the window counted frames and a latest
      frame exists, an average over no samples is None, and `next_write`
      advances by one period whether or not anything was stored. */
  function WriterStep(cfg: Config, s: State, now: real): (r: (State, Option<Averages>))
    ensures now < s.nextWrite ==> r == (s, None)
    ensures now >= s.nextWrite ==>
      r.0 == s.(accum := Zero, nextWrite := s.nextWrite + cfg.writePeriod)
    ensures r.1.Some? <==> now >= s.nextWrite && s.accum.count > 0 && s.latest.Some?
    ensures r.1.Some? ==>
      var a := s.accum;
      var v := r.1.value;
      && v.presence == a.presenceAny
      && (v.distance.None? <==> a.distanceCount == 0)
      && (v.bpm.None? <==> a.bpmCount == 0)
      && v.activity * a.count as real == a.activitySum
      && v.temperature * a.count as real == a.tempSum
      && (v.distance.Some? ==> v.distance.value * a.distanceCount as real == a.distanceSum)
      && (v.bpm.Some? ==> v.bpm.value * a.bpmCount as real == a.bpmSum)
  {
    if now < s.nextWrite then (s, None)
    else
      var a := s.accum;
      var s' := s.(accum := Zero, nextWrite := s.nextWrite + cfg.writePeriod);
      if a.count > 0 && s.latest.Some? then
        var distance := if a.distanceCount > 0 then Some(a.distanceSum / a.distanceCount as real) else None;
        var bpm := if a.bpmCount > 0 then Some(a.bpmSum / a.bpmCount as real) else None;
        (s', Some(Averages(a.presenceAny, distance, bpm, a.activitySum / a.count as real, a.tempSum / a.count as real)))
      else (s', None)
  }

  /** The frames of one window, written at the end of the window: the stored
      averages say whether any was valid, and the distance average is there
      exactly when one was. */
  lemma WindowAverages(cfg: Config, s: State, rds: seq<Reading>, now: real)
    requires s.accum == Zero && |rds| > 0 && now >= s.nextWrite
    ensures var s1 := SampleAll(cfg, s, rds);
      var v := WriterStep(cfg, s1, now).1;
      && v.Some?
      && (v.value.presence <==> exists i :: 0 <= i < |rds| && Valid(cfg, rds[i]))
      && (v.value.distance.Some? <==> ValidCount(cfg, rds) > 0)
  {
    SampleAllFold(cfg, s, rds);
    FoldCounts(cfg, Zero, rds);
  }

  /** The same window: the stored distance is the mean distance of its valid
      frames, and the stored breathing rate the mean of the reported rates. */
  lemma WindowMeans(cfg: Config, s: State, rds: seq<Reading>, now: real)
    requires s.accum == Zero && |rds| > 0 && now >= s.nextWrite
    ensures var v := WriterStep(cfg, SampleAll(cfg, s, rds), now).1;
      && v.Some?
      && v.value.distance == (if ValidCount(cfg, rds) > 0 then Some(DistanceTotal(cfg, rds) / ValidCount(cfg, rds) as real) else None)
      && v.value.bpm == (if BreathCount(rds) > 0 then Some(BreathTotal(rds) / BreathCount(rds) as real) else None)
  {
    SampleAllFold(cfg, s, rds);
    FoldCounts(cfg, Zero, rds);
  }

  function SampleAll(cfg: Config, s: State, rds: seq<Reading>): State
    decreases |rds|
  {
    if |rds| == 0 then s else SampleAll(cfg, SampleStep(cfg, s, rds[0]), rds[1..])
  }

  lemma {:induction false} SampleAllFold(cfg: Config, s: State, rds: seq<Reading>)
    ensures SampleAll(cfg, s, rds).accum == Fold(cfg, s.accum, rds)
    ensures SampleAll(cfg, s, rds).nextWrite == s.nextWrite
    ensures |rds| > 0 ==> SampleAll(cfg, s, rds).latest == Some(rds[|rds| - 1])
    decreases |rds|
  {
    if |rds| > 0 {
      SampleAllFold(cfg, SampleStep(cfg, s, rds[0]), rds[1..]);
      if |rds| > 1 {
        assert rds[1..][|rds[1..]| - 1] == rds[|rds| - 1];
      }
    }
  }

  /** `store_radar_data`: the record handed to the database writer. */
  function RadarRecord(v: Averages): (r: DeviceData.Record)
    ensures |r| == 9
    ensures forall i :: 0 <= i < |r| && r[i].1.None? ==>
      (i == 4 && r[i].0 == "breathing_rate" && v.bpm.None?) || (i == 6 && r[i].0 == "object_distance" && v.distance.None?)
    ensures r[6] == ("object_distance", if v.distance.Some? then Some(DeviceData.Num(v.distance.value)) else None)
    ensures r[8] == ("motion", Some(DeviceData.Flag(v.presence)))
  {
    var num := (x: Option<real>) => if x.Some? then Some(DeviceData.Num(x.value)) else None;
    [ ("activity", Some(DeviceData.Num(v.activity))),
      ("activity_unit", Some(DeviceData.Text("score"))),
      ("radar_inside_temperature", Some(DeviceData.Num(v.temperature))),
      ("radar_inside_temperature_unit", Some(DeviceData.Text("Celsius"))),
      ("breathing_rate", num(v.bpm)),
      ("breathing_rate_unit", Some(DeviceData.Text("bpm"))),
      ("object_distance", num(v.distance)),
      ("object_distance_unit", Some(DeviceData.Text("m"))),
      ("motion", Some(DeviceData.Flag(v.presence))) ]
  }

  /** A window without a valid frame writes no distance point. */
  lemma NoDistancePointWithoutPresence(v: Averages)
    requires v.distance.None?
    ensures forall p :: p in DeviceData.Points("voegeli", None, RadarRecord(v)) ==> p.field != "object_distance"
  {
    var rec := RadarRecord(v);
    assert rec[6] == ("object_distance", None);
    assert forall i :: 0 <= i < 6 ==> |rec[i].0| != |"object_distance"| || rec[i].0 != "object_distance";
    assert DeviceData.Lookup(rec, "object_distance") == Some(None);
    DeviceData.NoneProducesNoPoint("voegeli", None, rec, "object_distance");
  }

  // ------------------------------------------------------- motion callback

  /** Seconds between two image grabs. */
  const ImageInterval: real := 3600.0

  /** Seconds between two mail rounds. */
  const MailInterval: real := 86400.0

  const BaseUrl: string := "https://linusleo.synology.me"

  /** `last_email_sent.txt`: missing, or its first line. */
  datatype StampFile = Missing | Present(line: string)

  /** A mail sent: the recipient and the unsubscribe link in its body. */
  datatype Mail = Mail(recipient: string, unsubscribe: string)

  /** `last_image_time`, the LED and motion block, and the stamp file. */
  datatype Motion = Motion(camera: Camera.Camera, lastImage: real, stampFile: StampFile)

  /** What the callback reads from outside: the clock when it starts, whether
      the frame grab succeeded, whether the upload of the grabbed frame
      returned normally, the clock when the LED is switched off again, and
      the subscriber rows (None when the file does not exist). */
  datatype MotionEnv = MotionEnv(now: real, grabbed: bool, uploaded: bool, offAt: real, subscribers: Option<seq<seq<string>>>)

  /** An exception that escapes the callback and ends the watcher thread. */
  datatype MotionFault = UploadFailed | BadStamp | BlankRow | Token(error: EmailToken.TokenError)

  datatype Outcome = Outcome(state: Motion, mails: seq<Mail>, fault: Option<MotionFault>)

  /** The mails of one round, in row order; a blank row or a failing token
      stops the round after the mails already sent. */
  function MailRound(cfg: EmailToken.TokenConfig, rows: seq<seq<string>>): (r: (seq<Mail>, Option<MotionFault>))
    ensures |r.0| <= |rows|
    ensures forall i :: 0 <= i < |r.0| ==> |rows[i]| > 0 && r.0[i].recipient == rows[i][0]
    ensures r.1.None? <==> |r.0| == |rows|
    ensures r.1.Some? ==> r.1 == Some(BlankRow) || r.1.value.Token?
    ensures r.1 == Some(BlankRow) ==> |r.0| < |rows| && |rows[|r.0|]| == 0
    ensures r.1.Some? && r.1.value.Token? ==>
      |r.0| < |rows| && |rows[|r.0|]| > 0 && EmailToken.EncodeEmail(cfg, rows[|r.0|][0]) == Err(r.1.value.error)
  {
    if |rows| == 0 then ([], None)
    else if |rows[0]| == 0 then ([], Some(BlankRow))
    else match EmailToken.EncodeEmail(cfg, rows[0][0])
      case Err(e) => ([], Some(Token(e)))
      case Ok(token) =>
        var tail := rows[1..];
        var (rest, fault) := MailRound(cfg, tail);
        var mails := [Mail(rows[0][0], BaseUrl + "/unsubscribe/" + token + "/")] + rest;
        assert |rest| < |tail| ==> rows[|mails|] == tail[|rest|];
        assert forall i :: 0 <= i < |rest| ==> rows[i + 1] == tail[i] && mails[i + 1] == rest[i];
        (mails, fault)
  }

  /** Every mail sent carries the unsubscribe link built from its
      recipient's token. */
  lemma {:induction false} MailRoundLinks(cfg: EmailToken.TokenConfig, rows: seq<seq<string>>)
    ensures var ms := MailRound(cfg, rows).0;
      forall i :: 0 <= i < |ms| ==>
        && |rows[i]| > 0
        && EmailToken.EncodeEmail(cfg, rows[i][0]).Ok?
        && ms[i].unsubscribe == BaseUrl + "/unsubscribe/" + EmailToken.EncodeEmail(cfg, rows[i][0]).value + "/"
    decreases |rows|
  {
    if |rows| > 0 && |rows[0]| > 0 && EmailToken.EncodeEmail(cfg, rows[0][0]).Ok? {
      MailRoundLinks(cfg, rows[1..]);
      var ms := MailRound(cfg, rows).0;
      var rest := MailRound(cfg, rows[1..]).0;
      assert ms[1..] == rest;
      forall i | 1 <= i < |ms|
        ensures EmailToken.EncodeEmail(cfg, rows[i][0]).Ok?
        ensures ms[i].unsubscribe == BaseUrl + "/unsubscribe/" + EmailToken.EncodeEmail(cfg, rows[i][0]).value + "/"
      {
        assert rows[i] == rows[1..][i - 1] && ms[i] == rest[i - 1];
      }
    }
  }

  /** The stored time of the last mail round: an empty line counts as 0, and
      a line `int` cannot read is an error. */
  function LastMailTime(line: string): (r: Option<int>)
    ensures PyText.Strip(line) == "" ==> r == Some(0)
    ensures PyText.Strip(line) != "" ==> r == Decimal.ParseInt(PyText.Strip(line))
  {
    var content := PyText.Strip(line);
    if content == "" then Some(0) else Decimal.ParseInt(content)
  }

  /** The grab part: when at least an hour has passed since the last
      successful grab, the LED goes on, the frame is grabbed, and the LED goes
      off again; only a successful grab moves `last_image_time`. The upload
      after a successful grab sits in a `try` that catches only a failed
      grab, so an upload that raises skips switching the LED off and ends
      the callback. */
  function ImagePart(m: Motion, env: MotionEnv): (r: (Motion, Option<MotionFault>))
    ensures r.0.stampFile == m.stampFile
    ensures env.now - m.lastImage < ImageInterval ==> r == (m, None)
    ensures env.now - m.lastImage >= ImageInterval && env.grabbed && !env.uploaded ==>
      r == (m.(camera := Camera.TurnOn(m.camera), lastImage := env.now), Some(UploadFailed))
    ensures env.now - m.lastImage >= ImageInterval && !(env.grabbed && !env.uploaded) ==>
      && r.1.None?
      && r.0.camera == Camera.TurnOff(Camera.TurnOn(m.camera), env.offAt)
      && r.0.lastImage == (if env.grabbed then env.now else m.lastImage)
  {
    if env.now - m.lastImage >= ImageInterval then
      var lit := Camera.TurnOn(m.camera);
      if env.grabbed && !env.uploaded then (m.(camera := lit, lastImage := env.now), Some(UploadFailed))
      else
        var last := if env.grabbed then env.now else m.lastImage;
        (m.(camera := Camera.TurnOff(lit, env.offAt), lastImage := last), None)
    else (m, None)
  }

  /** The mail part, after the grab part. A missing stamp file is created
      with `int(now)` and no mail goes out. Otherwise mail goes out only when
      a day has passed since the stored time, and then the file is
      overwritten with `int(now)` unless the round failed. */
  function MailPart(cfg: EmailToken.TokenConfig, m: Motion, env: MotionEnv): (r: Outcome)
    ensures m.stampFile.Missing? ==> r == Outcome(m.(stampFile := Present(Decimal.Render(Clock.Trunc(env.now)))), [], None)
    ensures r.state.camera == m.camera && r.state.lastImage == m.lastImage
    ensures |r.mails| > 0 ==>
      && m.stampFile.Present?
      && LastMailTime(m.stampFile.line).Some?
      && env.now - LastMailTime(m.stampFile.line).value as real >= MailInterval
    ensures r.state.stampFile != m.stampFile ==> r.state.stampFile == Present(Decimal.Render(Clock.Trunc(env.now)))
    ensures m.stampFile.Present? && |r.mails| > 0 && r.fault.None? ==> r.state.stampFile == Present(Decimal.Render(Clock.Trunc(env.now)))
    ensures m.stampFile.Present? ==> (r.fault == Some(BadStamp) <==> LastMailTime(m.stampFile.line).None?)
    ensures m.stampFile.Present? && LastMailTime(m.stampFile.line).None? ==> r == Outcome(m, [], Some(BadStamp))
    ensures m.stampFile.Present? && LastMailTime(m.stampFile.line).Some? ==>
      var due := env.now - LastMailTime(m.stampFile.line).value as real >= MailInterval;
      && (!due ==> r == Outcome(m, [], None))
      && (due ==> (r.mails, r.fault) == (if env.subscribers.Some? then MailRound(cfg, env.subscribers.value) else ([], None)))
      && (due && r.fault.None? ==> r.state.stampFile == Present(Decimal.Render(Clock.Trunc(env.now))))
      && (due && r.fault.Some? ==> r.state == m)
  {
    match m.stampFile
    case Missing => Outcome(m.(stampFile := Present(Decimal.Render(Clock.Trunc(env.now)))), [], None)
    case Present(line) =>
      match LastMailTime(line)
      case None => Outcome(m, [], Some(BadStamp))
      case Some(last) =>
        if env.now - last as real >= MailInterval then
          var (mails, fault) := if env.subscribers.Some? then MailRound(cfg, env.subscribers.value) else ([], None);
          if fault.Some? then Outcome(m, mails, fault)
          else Outcome(m.(stampFile := Present(Decimal.Render(Clock.Trunc(env.now)))), mails, None)
        else Outcome(m, [], None)
  }

  /** `motion_detected_callback`: nothing at all happens while motion is
      blocked or the LED is on; otherwise the grab part runs, and the mail
      part after it unless the upload raised. */
  function MotionDetected(cfg: EmailToken.TokenConfig, m: Motion, env: MotionEnv): (r: Outcome)
    ensures MotionBlock.Blocked(m.camera.block, env.now) || Camera.LedState(m.camera) ==> r == Outcome(m, [], None)
    ensures !(MotionBlock.Blocked(m.camera.block, env.now) || Camera.LedState(m.camera)) ==>
      var (m1, fault) := ImagePart(m, env);
      r == if fault.Some? then Outcome(m1, [], fault) else MailPart(cfg, m1, env)
  {
    if MotionBlock.Blocked(m.camera.block, env.now) || Camera.LedState(m.camera) then Outcome(m, [], None)
    else
      var (m1, fault) := ImagePart(m, env);
      if fault.Some? then Outcome(m1, [], fault) else MailPart(cfg, m1, env)
  }

  /** A failed upload leaves the LED on, so every later callback ignores
      motion until something switches the LED off. */
  lemma FailedUploadSilencesCallback(cfg: EmailToken.TokenConfig, m: Motion, env: MotionEnv, env2: MotionEnv)
    requires !MotionBlock.Blocked(m.camera.block, env.now) && !Camera.LedState(m.camera)
    requires env.now - m.lastImage >= ImageInterval && env.grabbed && !env.uploaded
    ensures var r := MotionDetected(cfg, m, env);
      && r.fault == Some(UploadFailed) && r.mails == [] && Camera.LedState(r.state.camera)
      && MotionDetected(cfg, r.state, env2) == Outcome(r.state, [], None)
  {
  }

  /** After a successful grab, no callback in the next hour grabs again. */
  lemma AtMostOneImagePerHour(cfg: EmailToken.TokenConfig, m: Motion, env: MotionEnv, env2: MotionEnv)
    requires env.grabbed && env.now - m.lastImage >= ImageInterval
    requires !MotionBlock.Blocked(m.camera.block, env.now) && !Camera.LedState(m.camera)
    requires env2.now < env.now + ImageInterval
    ensures var m1 := MotionDetected(cfg, m, env).state;
      m1.lastImage == env.now && MotionDetected(cfg, m1, env2).state.lastImage == env.now
  {
  }

  /** `str(n)` has no surrounding whitespace. */
  lemma StripRender(n: int)
    ensures PyText.Strip(Decimal.Render(n)) == Decimal.Render(n)
  {
    var s := Decimal.Render(n);
    assert !PyText.IsSpace(s[0]) && !PyText.IsSpace(s[|s| - 1]) by {
      if n >= 0 {
        assert Decimal.IsDigit(Decimal.RenderNat(n)[0]);
        assert Decimal.IsDigit(Decimal.RenderNat(n)[|s| - 1]);
      } else {
        assert s[|s| - 1] == Decimal.RenderNat(-n)[|s| - 2];
        assert Decimal.IsDigit(Decimal.RenderNat(-n)[|s| - 2]);
      }
    }
    PyText.StripUnpadded(s);
  }

  /** After a completed mail round, no callback earlier than a day after the
      stored whole second sends mail. */
  lemma AtMostOneMailRoundPerDay(cfg: EmailToken.TokenConfig, m: Motion, env: MotionEnv, env2: MotionEnv)
    requires m.stampFile.Present?
    requires var r := MailPart(cfg, m, env); |r.mails| > 0 && r.fault.None?
    requires env2.now < Clock.Trunc(env.now) as real + MailInterval
    ensures MailPart(cfg, MailPart(cfg, m, env).state, env2).mails == []
  {
    var n := Clock.Trunc(env.now);
    var m1 := MailPart(cfg, m, env).state;
    assert m1.stampFile == Present(Decimal.Render(n));
    StripRender(n);
    Decimal.ParseRender(n);
    assert LastMailTime(Decimal.Render(n)) == Some(n);
  }
}
