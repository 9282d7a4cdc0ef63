/** The text form of a schedule: `Actividad::toString` writes an activity as
    one comma-joined line, `guardarEnArchivo` writes the display name and then
    one such line per activity, and `cargarDesdeArchivo` reads the lines back.
    A file is modelled as its sequence of lines.

    Each line is read through a string stream with `std::getline`. Its
    behaviour is modelled exactly: once the stream has reached its end, a
    further `getline` extracts nothing and leaves its target string as it
    was, so a short line reuses the last numeric field it did read. */
module Persistence {

  import opened Options
  import Sequences
  import opened Decimal
  import opened Activities
  import opened Schedules

  /** `toString`: the seven fields joined by commas, with no escaping. The
      line opens with the name and a comma, closes with the location, and
      holds a line break only where a text field does. */
  function Encode(a: Activity): (line: string)
    ensures |line| > |a.name| && line[..|a.name|] == a.name && line[|a.name|] == ','
    ensures |line| >= |a.location| && line[|line| - |a.location|..] == a.location
    ensures '\n' !in a.name && '\n' !in a.location ==> '\n' !in line
  {
    NoBreakInNumber(a.day);
    NoBreakInNumber(a.startHour);
    NoBreakInNumber(a.startMinute);
    NoBreakInNumber(a.endHour);
    NoBreakInNumber(a.endMinute);
    var numbers := IntToString(a.day) + "," + (IntToString(a.startHour) + "," +
      (IntToString(a.startMinute) + "," + (IntToString(a.endHour) + "," +
      (IntToString(a.endMinute) + "," + a.location))));
    assert (a.name + "," + numbers)[..|a.name|] == a.name;
    a.name + "," + numbers
  }

  /** The decimal text of a number holds no line break. */
  lemma NoBreakInNumber(n: int)
    ensures '\n' !in IntToString(n)
  {
    forall i | 0 <= i < |IntToString(n)| ensures IntToString(n)[i] != '\n' {
    }
  }

  /** A string stream: the characters not yet read, and whether the stream is
      still good (neither at end of input nor failed). */
  datatype Stream = Stream(rest: string, good: bool)

  /** `std::getline(stream, target, delim)`. A stream that is not good reads
      nothing and leaves `target` unchanged. Otherwise `target` receives the
      characters up to the first `delim`, which is consumed; with no `delim`
      left it receives the rest and the stream reaches its end; with nothing
      left it is emptied and the stream fails. */
  function GetLine(st: Stream, target: string, delim: char): (r: (string, Stream))
    ensures !st.good ==> r == (target, st)
    ensures st.good && delim !in st.rest ==> r == (st.rest, Stream("", false))
    ensures delim !in r.0 || r.0 == target
    ensures r.1.good ==> r.0 + [delim] + r.1.rest == st.rest
    ensures st.good && delim in st.rest ==> r.1.good && delim !in r.0
  {
    if !st.good then (target, st)
    else if |st.rest| == 0 then ("", Stream("", false))
    else
      match Sequences.FirstIndex(st.rest, (c: char) => c == delim)
      case Some(k) =>
        assert st.rest == st.rest[..k] + [delim] + st.rest[k + 1..];
        (st.rest[..k], Stream(st.rest[k + 1..], true))
      case None => (st.rest, Stream("", false))
  }

  /** One line of the file after the display name, read as the loop body of
      `cargarDesdeArchivo` does; `None` where `std::stoi` would throw. */
  function ParseLine(line: string): (r: Option<Activity>)
    ensures r.Some? ==> ',' !in r.value.name && '\n' !in r.value.location
    ensures r.Some? ==> InIntRange(r.value.day) && InIntRange(r.value.startHour)
    ensures r.Some? ==> InIntRange(r.value.startMinute) && InIntRange(r.value.endHour) && InIntRange(r.value.endMinute)
  {
    var (name, s1) := GetLine(Stream(line, true), "", ',');
    var (f1, s2) := GetLine(s1, "", ',');
    var (f2, s3) := GetLine(s2, f1, ',');
    var (f3, s4) := GetLine(s3, f2, ',');
    var (f4, s5) := GetLine(s4, f3, ',');
    var (f5, s6) := GetLine(s5, f4, ',');
    var (location, _) := GetLine(s6, "", '\n');
    var day, startHour, startMinute, endHour, endMinute := Stoi(f1), Stoi(f2), Stoi(f3), Stoi(f4), Stoi(f5);
    if day.None? || startHour.None? || startMinute.None? || endHour.None? || endMinute.None? then None
    else Some(Activity(name, day.value, startHour.value, startMinute.value, endHour.value, endMinute.value, location))
  }

  /** Every line parsed, in order; `None` if any line fails. */
  function ParseLines(lines: seq<string>): (r: Option<seq<Activity>>)
    ensures r.Some? <==> forall i :: 0 <= i < |lines| ==> ParseLine(lines[i]).Some?
    ensures r.Some? ==> |r.value| == |lines|
    ensures r.Some? ==> forall i :: 0 <= i < |lines| ==> ParseLine(lines[i]) == Some(r.value[i])
  {
    Sequences.MapAll(lines, ParseLine)
  }

  /** `guardarEnArchivo`: the display name, then one line per activity. */
  function Save(s: Schedule): (lines: seq<string>)
    ensures |lines| == |s.activities| + 1 && lines[0] == s.name
    ensures forall i :: 0 <= i < |s.activities| ==> lines[i + 1] == Encode(s.activities[i])
  {
    [s.name] + seq(|s.activities|, i requires 0 <= i < |s.activities| => Encode(s.activities[i]))
  }

  /** `cargarDesdeArchivo` on a file already split into lines: the first line
      is the display name (empty for an empty file) and each further line one
      activity, appended without any conflict check. */
  function Load(lines: seq<string>): (r: Option<Schedule>)
    ensures |lines| == 0 ==> r == Some(Schedule("", []))
    ensures |lines| > 0 && r.Some? ==> r.value.name == lines[0] && |r.value.activities| == |lines| - 1
    ensures |lines| > 0 ==> (r.Some? <==> forall i :: 1 <= i < |lines| ==> ParseLine(lines[i]).Some?)
    ensures |lines| > 0 && r.Some? ==>
      forall i :: 1 <= i < |lines| ==> ParseLine(lines[i]) == Some(r.value.activities[i - 1])
  {
    if |lines| == 0 then Some(Schedule("", []))
    else
      assert forall i :: 1 <= i < |lines| ==> lines[i] == lines[1..][i - 1];
      match ParseLines(lines[1..])
      case None => None
      case Some(activities) => Some(Schedule(lines[0], activities))
  }

  /** What one line needs to read back as the activity written into it: the
      fields fit the source's `int`, the name holds no comma, and the
      location holds no line break. */
  predicate Storable(a: Activity) {
    && ',' !in a.name && '\n' !in a.location
    && InIntRange(a.day) && InIntRange(a.startHour) && InIntRange(a.startMinute)
    && InIntRange(a.endHour) && InIntRange(a.endMinute)
  }

  /** Reading a field that ends at a comma. */
  lemma GetLineField(field: string, rest: string, target: string)
    requires ',' !in field
    ensures GetLine(Stream(field + "," + rest, true), target, ',') == (field, Stream(rest, true))
  {
    var text := field + "," + rest;
    assert forall j :: 0 <= j < |field| ==> text[j] == field[j];
    assert text[|field|] == ',';
    assert text[..|field|] == field && text[|field| + 1..] == rest;
  }

  /** A numeric field as written by `IntToString`. */
  lemma GetLineNumber(n: int, rest: string, target: string)
    ensures GetLine(Stream(IntToString(n) + "," + rest, true), target, ',') == (IntToString(n), Stream(rest, true))
  {
    assert ',' !in IntToString(n) by {
      forall i | 0 <= i < |IntToString(n)| ensures IntToString(n)[i] != ',' {
      }
    }
    GetLineField(IntToString(n), rest, target);
  }

  /** The location is the rest of the line, commas included. */
  lemma GetLineLocation(location: string)
    requires '\n' !in location
    ensures GetLine(Stream(location, true), "", '\n').0 == location
  {
  }

  /** Parsing the line `toString` writes recovers the activity, provided the
      name holds no comma; commas in the location survive. */
  lemma ParseEncode(a: Activity)
    requires Storable(a)
    ensures ParseLine(Encode(a)) == Some(a)
  {
    var r5 := IntToString(a.endMinute) + "," + a.location;
    var r4 := IntToString(a.endHour) + "," + r5;
    var r3 := IntToString(a.startMinute) + "," + r4;
    var r2 := IntToString(a.startHour) + "," + r3;
    var r1 := IntToString(a.day) + "," + r2;
    assert Encode(a) == a.name + "," + r1;
    GetLineField(a.name, r1, "");
    GetLineNumber(a.day, r2, "");
    GetLineNumber(a.startHour, r3, IntToString(a.day));
    GetLineNumber(a.startMinute, r4, IntToString(a.startHour));
    GetLineNumber(a.endHour, r5, IntToString(a.startMinute));
    GetLineNumber(a.endMinute, a.location, IntToString(a.endHour));
    GetLineLocation(a.location);
    StoiIntToString(a.day);
    StoiIntToString(a.startHour);
    StoiIntToString(a.startMinute);
    StoiIntToString(a.endHour);
    StoiIntToString(a.endMinute);
  }

  /** Saving and loading gives back the same schedule when every activity is
      storable and neither the display name nor an activity name holds a line
      break, so that the file splits into exactly the lines written. */
  lemma LoadSave(s: Schedule)
    requires '\n' !in s.name
    requires forall i :: 0 <= i < |s.activities| ==> Storable(s.activities[i]) && '\n' !in s.activities[i].name
    ensures Load(Save(s)) == Some(s)
  {
    var lines := Save(s);
    var body := lines[1..];
    forall i | 0 <= i < |body| ensures ParseLine(body[i]) == Some(s.activities[i]) {
      assert body[i] == Encode(s.activities[i]);
      ParseEncode(s.activities[i]);
    }
    Sequences.MapAllYields(body, s.activities, ParseLine);
  }

  /** Loading trusts the file: two conflicting activities that were written
      out come back side by side, breaking the invariant the add path keeps. */
  lemma LoadSkipsConflictCheck(name: string, a: Activity, b: Activity)
    requires '\n' !in name && Storable(a) && Storable(b) && '\n' !in a.name && '\n' !in b.name
    requires ConflictsWith(a, b)
    ensures Load(Save(Schedule(name, [a, b]))).Some?
    ensures !Consistent(Load(Save(Schedule(name, [a, b]))).value.activities)
  {
    LoadSave(Schedule(name, [a, b]));
    var t := [a, b];
    assert t[0] == a && t[1] == b;
  }

  /** A line that stops after the day field reuses it for every time field,
      because the exhausted stream leaves `valor` as it was, and the location
      is left empty. */
  lemma ShortLineRepeatsField(name: string, n: int)
    requires ',' !in name && InIntRange(n)
    ensures ParseLine(name + "," + IntToString(n)) == Some(Activity(name, n, n, n, n, n, ""))
  {
    GetLineField(name, IntToString(n), "");
    assert ',' !in IntToString(n) by {
      forall i | 0 <= i < |IntToString(n)| ensures IntToString(n)[i] != ',' {
      }
    }
    StoiIntToString(n);
  }
}
