/** `write_device_data_to_db`, which `main.py` and `radar.py` carry in
    identical copies: a record of named readings is flattened into one
    database point per reading, with tags taken from companion keys. The
    database client itself is not modelled; the result is the list of
    points handed to it. */
module DeviceData {
  import opened Wrappers
  import PyText

  /** A reading: a number, a text or a flag. */
  datatype Datum = Num(x: real) | Text(s: string) | Flag(b: bool)

  /** `device_data['data']`: keys in insertion order, each with a reading or
      None. */
  type Record = seq<(string, Option<Datum>)>

  /** `key in data` and `data[key]`: the outer None means the key is absent,
      the inner one a stored None. A dict holds each key once; the first
      entry is the one read. */
  function Lookup(rec: Record, key: string): (r: Option<Option<Datum>>)
    ensures r.None? <==> forall i :: 0 <= i < |rec| ==> rec[i].0 != key
    ensures r.Some? ==> exists i :: 0 <= i < |rec| && rec[i] == (key, r.value)
  {
    if |rec| == 0 then None
    else if rec[0].0 == key then Some(rec[0].1)
    else
      var r := Lookup(rec[1..], key);
      assert r.Some? ==> exists i :: 1 <= i < |rec| && rec[i] == (key, r.value) by {
        if r.Some? {
          var i :| 0 <= i < |rec[1..]| && rec[1..][i] == (key, r.value);
          assert rec[i + 1] == (key, r.value);
        }
      }
      r
  }

  /** A key names a reading unless it contains `unit` or `location`. */
  predicate IsMeasurementName(key: string)
  {
    !PyText.Contains(key, "unit") && !PyText.Contains(key, "location")
  }

  /** `measurement_names`: the keys that name readings, in order. */
  function MeasurementNames(rec: Record): (r: seq<string>)
    ensures forall j :: 0 <= j < |r| ==> IsMeasurementName(r[j]) && Lookup(rec, r[j]).Some?
    ensures forall i :: 0 <= i < |rec| && IsMeasurementName(rec[i].0) ==> rec[i].0 in r
    ensures |r| <= |rec|
  {
    if |rec| == 0 then []
    else
      var rest := MeasurementNames(rec[1..]);
      if IsMeasurementName(rec[0].0) then [rec[0].0] + rest else rest
  }

  datatype Tag = Tag(name: string, value: Datum)

  datatype Point = Point(measurement: string, field: string, value: Datum, tags: seq<Tag>)

  /** The tags `name` gets from the companion key `name + suffix`, when that
      key exists and holds a value. */
  function Companion(rec: Record, name: string, suffix: string, tag: string): (r: seq<Tag>)
    ensures |r| <= 1
    ensures |r| == 1 <==> Lookup(rec, name + suffix).Some? && Lookup(rec, name + suffix).value.Some?
    ensures |r| == 1 ==> r[0] == Tag(tag, Lookup(rec, name + suffix).value.value)
  {
    match Lookup(rec, name + suffix)
    case Some(Some(v)) => [Tag(tag, v)]
    case _ => []
  }

  /** The tags of reading `name`: `unit`, `location` and `type`, in that
      order, each from its companion key. */
  function TagsFor(rec: Record, name: string): (r: seq<Tag>)
    ensures |r| <= 3
    ensures forall t :: t in r ==> t.name in ["unit", "location", "type"]
    ensures forall v :: Tag("unit", v) in r <==> Lookup(rec, name + "_unit") == Some(Some(v))
    ensures forall v :: Tag("location", v) in r <==> Lookup(rec, name + "_location") == Some(Some(v))
    ensures forall v :: Tag("type", v) in r <==> Lookup(rec, name + "_type") == Some(Some(v))
  {
    Companion(rec, name, "_unit", "unit") + Companion(rec, name, "_location", "location") + Companion(rec, name, "_type", "type")
  }

  /** The points for the given names: one per name whose stored value is not
      None. */
  function PointsFor(measurement: string, rec: Record, names: seq<string>): (r: seq<Point>)
    ensures forall p :: p in r ==> p.field in names && Lookup(rec, p.field) == Some(Some(p.value))
    ensures forall p :: p in r ==> p.measurement == measurement && p.tags == TagsFor(rec, p.field)
    ensures |r| <= |names|
  {
    if |names| == 0 then []
    else
      var rest := PointsFor(measurement, rec, names[1..]);
      match Lookup(rec, names[0])
      case Some(Some(v)) => [Point(measurement, names[0], v, TagsFor(rec, names[0]))] + rest
      case _ => rest
  }

  /** The measurement a call writes to: the given one, else `device`. */
  function MeasurementOf(device: string, measurement: Option<string>): string
  {
    if measurement.Some? then measurement.value else device
  }

  /** `write_device_data_to_db(device_data, measurement)`: the points written.
      No field name contains `unit` or `location`, every point carries the
      stored, non-None value of its key, and its tags come from the
      companion keys. */
  function Points(device: string, measurement: Option<string>, rec: Record): (r: seq<Point>)
    ensures forall p :: p in r ==> IsMeasurementName(p.field)
    ensures forall p :: p in r ==> Lookup(rec, p.field) == Some(Some(p.value))
    ensures forall p :: p in r ==> p.measurement == MeasurementOf(device, measurement) && p.tags == TagsFor(rec, p.field)
  {
    PointsFor(MeasurementOf(device, measurement), rec, MeasurementNames(rec))
  }

  lemma {:induction false} PointsForComplete(measurement: string, rec: Record, names: seq<string>, name: string, v: Datum)
    requires name in names && Lookup(rec, name) == Some(Some(v))
    ensures Point(measurement, name, v, TagsFor(rec, name)) in PointsFor(measurement, rec, names)
  {
    if names[0] != name {
      PointsForComplete(measurement, rec, names[1..], name, v);
    }
  }

  /** A Python dict: no key twice. */
  predicate IsDict(rec: Record)
  {
    forall i, j :: 0 <= i < j < |rec| ==> rec[i].0 != rec[j].0
  }

  lemma {:induction false} LookupOfDict(rec: Record, i: nat)
    requires IsDict(rec) && i < |rec|
    ensures Lookup(rec, rec[i].0) == Some(rec[i].1)
  {
    if i > 0 {
      assert rec[0].0 != rec[i].0;
      assert rec[1..][i - 1] == rec[i];
      LookupOfDict(rec[1..], i - 1);
    }
  }

  /** Every key that names a reading and holds a value becomes a point. */
  lemma PointsComplete(device: string, measurement: Option<string>, rec: Record, i: nat)
    requires IsDict(rec) && i < |rec| && IsMeasurementName(rec[i].0) && rec[i].1.Some?
    ensures Point(MeasurementOf(device, measurement), rec[i].0, rec[i].1.value, TagsFor(rec, rec[i].0)) in Points(device, measurement, rec)
  {
    LookupOfDict(rec, i);
    PointsForComplete(MeasurementOf(device, measurement), rec, MeasurementNames(rec), rec[i].0, rec[i].1.value);
  }

  /** A None reading produces no point. */
  lemma NoneProducesNoPoint(device: string, measurement: Option<string>, rec: Record, key: string)
    requires Lookup(rec, key) == Some(None)
    ensures forall p :: p in Points(device, measurement, rec) ==> p.field != key
  {
  }

  /** The test on `unit` is a substring test: a key such as `community` is
      never written, although it is not a companion key. */
  lemma SubstringExcludesKey()
    ensures !IsMeasurementName("community")
  {
    assert PyText.OccursAt("community", "unit", 4);
    PyText.ContainsIff("community", "unit");
  }
}
