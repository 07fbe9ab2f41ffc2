/** The `df -h` reader and the rate guard of `SystemMonitoring.monitor_system`.
    Running `df`, decoding its output and splitting it into lines happen
    outside the model: the reader starts from the lines. */
module SystemMonitor {
  import opened Wrappers
  import PyText
  import Decimal

  /** `disk_size`, `disk_used` and `disk_perc`. */
  datatype Disk = Disk(size: string, used: Option<string>, percent: Option<real>)

  /** The values set in `__init__`, kept until a root line is found. */
  const InitialDisk: Disk := Disk("32G", None, None)

  /** `float(...)` raised: the monitoring thread stops, leaving the disk
      values as they were at that moment (size and used already assigned). */
  datatype MonitorError = BadPercent(text: string, left: Disk)

  /** A line describing the root mount: at least six fields, the sixth `/`. */
  predicate IsRootLine(line: string)
  {
    var f := PyText.SplitWhitespace(line);
    |f| >= 6 && f[5] == "/"
  }

  /** The position of the first root line in `ls`. */
  function FirstRoot(ls: seq<string>): (r: Option<nat>)
    ensures r.Some? ==> r.value < |ls| && IsRootLine(ls[r.value])
    ensures r.Some? ==> forall j :: 0 <= j < r.value ==> !IsRootLine(ls[j])
    ensures r.None? ==> forall j :: 0 <= j < |ls| ==> !IsRootLine(ls[j])
  {
    if |ls| == 0 then None
    else if IsRootLine(ls[0]) then Some(0)
    else match FirstRoot(ls[1..])
      case None => None
      case Some(i) => Some(i + 1)
  }

  /** The line the `for` loop stops at: the header (line 0) is skipped, and
      the first root line after it wins. */
  function RootIndex(lines: seq<string>): (r: Option<nat>)
    ensures r.Some? ==> 1 <= r.value < |lines| && IsRootLine(lines[r.value])
    ensures r.Some? ==> forall j :: 1 <= j < r.value ==> !IsRootLine(lines[j])
    ensures r.None? ==> forall j :: 1 <= j < |lines| ==> !IsRootLine(lines[j])
  {
    if |lines| == 0 then None
    else match FirstRoot(lines[1..])
      case None => None
      case Some(i) => Some(i + 1)
  }

  /** One pass over the `df -h` lines: with a root line, size and used are
      its second and third fields and the percent is its fifth field with
      every `%` removed, read as a number; without one, the previous values
      stay. When the percent does not read as a number, size and used have
      already been replaced and the percent keeps its previous value. */
  function ReadDf(disk: Disk, lines: seq<string>): (r: Result<Disk, MonitorError>)
    ensures RootIndex(lines).None? ==> r == Ok(disk)
    ensures RootIndex(lines).Some? ==>
      var f := PyText.SplitWhitespace(lines[RootIndex(lines).value]);
      && (r.Err? <==> Decimal.ParseReal(PyText.RemoveChar(f[4], '%')).None?)
      && (r.Ok? ==> r.value == Disk(f[1], Some(f[2]), Decimal.ParseReal(PyText.RemoveChar(f[4], '%'))))
      && (r.Err? ==> r.error.left == Disk(f[1], Some(f[2]), disk.percent))
  {
    match RootIndex(lines)
    case None => Ok(disk)
    case Some(i) =>
      var f := PyText.SplitWhitespace(lines[i]);
      var text := PyText.RemoveChar(f[4], '%');
      match Decimal.ParseReal(text)
      case None => Err(BadPercent(text, disk.(size := f[1], used := Some(f[2]))))
      case Some(p) => Ok(Disk(f[1], Some(f[2]), Some(p)))
  }

  /** The header line is never read, whatever it says. */
  lemma HeaderIgnored(disk: Disk, h1: string, h2: string, rest: seq<string>)
    ensures ReadDf(disk, [h1] + rest) == ReadDf(disk, [h2] + rest)
  {
    assert ([h1] + rest)[1..] == rest == ([h2] + rest)[1..];
  }

  /** Lines after the first root line are never read. */
  lemma {:induction false} FirstRootStable(ls: seq<string>, more: seq<string>)
    requires FirstRoot(ls).Some?
    ensures FirstRoot(ls + more) == FirstRoot(ls)
  {
    if !IsRootLine(ls[0]) {
      assert (ls + more)[1..] == ls[1..] + more;
      FirstRootStable(ls[1..], more);
    }
  }

  /** Whatever follows the first root line, the reading is the same. */
  lemma OnlyFirstRootLineCounts(disk: Disk, lines: seq<string>, more: seq<string>)
    requires RootIndex(lines).Some?
    ensures ReadDf(disk, lines + more) == ReadDf(disk, lines)
  {
    assert (lines + more)[1..] == lines[1..] + more;
    FirstRootStable(lines[1..], more);
    var i := RootIndex(lines).value;
    assert RootIndex(lines + more) == Some(i);
    assert (lines + more)[i] == lines[i];
  }

  /** An integral percentage as `df` prints it (digits then `%`) reads as
      that number. */
  lemma PercentOfDf(n: nat)
    ensures Decimal.ParseReal(PyText.RemoveChar(Decimal.RenderNat(n) + "%", '%')) == Some(n as real)
  {
    var digits := Decimal.RenderNat(n);
    RemoveAppend(digits, "%", '%');
    PyText.RemoveAbsentChar(digits, '%');
    assert PyText.RemoveChar("%", '%') == "";
    assert PyText.RemoveChar(digits + "%", '%') == digits;
    Decimal.ParseRealOfRender(n);
  }

  lemma {:induction false} RemoveAppend(a: string, b: string, c: char)
    ensures PyText.RemoveChar(a + b, c) == PyText.RemoveChar(a, c) + PyText.RemoveChar(b, c)
  {
    if |a| > 0 {
      assert (a + b)[1..] == a[1..] + b;
      RemoveAppend(a[1..], b, c);
    } else {
      assert a + b == b;
    }
  }

  /** The guard after the rate computation: a negative rate becomes None. */
  function GuardRate(rate: real): (r: Option<real>)
    ensures r.None? <==> rate < 0.0
    ensures r.Some? ==> r.value == rate && r.value >= 0.0
  {
    if rate < 0.0 then None else Some(rate)
  }
}
