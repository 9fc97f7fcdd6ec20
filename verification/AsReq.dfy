/** The text layer of `parse_asreq_packets`: every non-empty line of the
    dissector output must be `user$realm$cipher`, and a line that is not
    stops the whole parse with Python's unpacking error. */
module AsReq {
  import opened Results
  import opened Text
  import opened Dissector

  /** One pre-authentication record: client name, realm and the hex text of
      the encrypted timestamp. */
  datatype Record = Record(username: string, domain: string, cipher: string)

  /** The `ValueError` raised by `a, b, c = line.split("$")` when the split
      does not give three fields. */
  datatype UnpackError = NotEnoughValues(got: nat) | TooManyValues

  /** No field holds the field separator, as every field of a split. */
  predicate Clean(r: Record) {
    FieldSeparator !in r.username && FieldSeparator !in r.domain && FieldSeparator !in r.cipher
  }

  /** The record laid out as the dissector prints it. */
  function Line(r: Record): string {
    r.username + [FieldSeparator] + r.domain + [FieldSeparator] + r.cipher
  }

  /** One line: exactly two separators give a record that lays out back to
      the line; any other number raises the unpacking error Python reports. */
  function ParseLine(line: string): (r: Result<Record, UnpackError>)
    ensures r.Ok? <==> Occurrences(line, FieldSeparator) == 2
    ensures r.Ok? ==> Clean(r.value) && Line(r.value) == line
    ensures r.Err? && Occurrences(line, FieldSeparator) < 2 ==>
              r.error == NotEnoughValues(Occurrences(line, FieldSeparator) + 1)
    ensures r.Err? && Occurrences(line, FieldSeparator) > 2 ==> r.error == TooManyValues
  {
    var fields := Split(line, FieldSeparator);
    if |fields| == 3 then
      JoinSplit(line, FieldSeparator);
      assert fields == [fields[0], fields[1], fields[2]];
      JoinThree(fields[0], fields[1], fields[2], FieldSeparator);
      Ok(Record(fields[0], fields[1], fields[2]))
    else if |fields| < 3 then Err(NotEnoughValues(|fields|))
    else Err(TooManyValues)
  }

  /** Any record without separators in its fields is read back from its line. */
  lemma ParseLineOfRecord(rec: Record)
    requires Clean(rec)
    ensures ParseLine(Line(rec)) == Ok(rec)
  {
    var parts := [rec.username, rec.domain, rec.cipher];
    SplitJoin(parts, FieldSeparator);
    JoinThree(rec.username, rec.domain, rec.cipher, FieldSeparator);
  }

  /** Every line is empty or holds exactly two field separators. */
  predicate AllWellFormed(lines: seq<string>) {
    forall i :: 0 <= i < |lines| ==> lines[i] == [] || Occurrences(lines[i], FieldSeparator) == 2
  }

  /** The loop over the lines: empty lines are skipped, records keep the order
      of their lines, and the first malformed line aborts with its error. */
  function ParseLines(lines: seq<string>): Result<seq<Record>, UnpackError>
  {
    if |lines| == 0 then Ok([]) else Step(lines[0], ParseLines(lines[1..]))
  }

  /** One iteration of the loop, in front of the outcome of the later lines. */
  function Step(line: string, rest: Result<seq<Record>, UnpackError>): Result<seq<Record>, UnpackError>
  {
    if line == [] then rest
    else
      var first := ParseLine(line);
      if first.Err? then Err(first.error)
      else if rest.Err? then rest
      else Ok([first.value] + rest.value)
  }

  /** Well-formedness of a list of lines is that of its head and of its tail. */
  lemma AllWellFormedCons(lines: seq<string>)
    requires |lines| > 0
    ensures AllWellFormed(lines) <==>
              (lines[0] == [] || Occurrences(lines[0], FieldSeparator) == 2) && AllWellFormed(lines[1..])
  {
    var tail := lines[1..];
    assert forall i :: 1 <= i < |lines| ==> lines[i] == tail[i - 1];
    if (lines[0] == [] || Occurrences(lines[0], FieldSeparator) == 2) && AllWellFormed(tail) {
      forall i | 0 <= i < |lines|
        ensures lines[i] == [] || Occurrences(lines[i], FieldSeparator) == 2
      {
        if i > 0 { assert lines[i] == tail[i - 1]; }
      }
    }
  }

  /** The parse succeeds exactly when every non-empty line is well formed. */
  lemma {:induction false} ParseLinesOk(lines: seq<string>)
    ensures ParseLines(lines).Ok? <==> AllWellFormed(lines)
  {
    if |lines| > 0 {
      ParseLinesOk(lines[1..]);
      AllWellFormedCons(lines);
    }
  }

  /** A successful parse yields one record per non-empty line, in order, each
      laying out back to its line. */
  lemma {:induction false} ParseLinesRecords(lines: seq<string>)
    requires ParseLines(lines).Ok?
    ensures |ParseLines(lines).value| == |NonEmpty(lines)|
    ensures forall k :: 0 <= k < |ParseLines(lines).value| ==>
              Clean(ParseLines(lines).value[k]) && Line(ParseLines(lines).value[k]) == NonEmpty(lines)[k]
  {
    if |lines| > 0 {
      var tail := lines[1..];
      assert ParseLines(tail).Ok?;
      ParseLinesRecords(tail);
      if lines[0] == [] {
        assert ParseLines(lines) == ParseLines(tail);
        assert NonEmpty(lines) == NonEmpty(tail);
      } else {
        var x := ParseLine(lines[0]).value;
        var v := ParseLines(tail).value;
        var recs := ParseLines(lines).value;
        var ne := NonEmpty(lines);
        assert recs == [x] + v;
        assert ne == [lines[0]] + NonEmpty(tail);
        forall k | 0 <= k < |recs|
          ensures Clean(recs[k]) && Line(recs[k]) == ne[k]
        {
          if k > 0 {
            assert recs[k] == v[k - 1];
            assert ne[k] == NonEmpty(tail)[k - 1];
          }
        }
      }
    }
  }

  /** `parse_asreq_packets` applied to the dissector's output text. */
  function Parse(stdout: string): Result<seq<Record>, UnpackError> {
    ParseLines(Lines(stdout))
  }

  /** When the parse fails, its error is that of the first malformed
      non-empty line, and every non-empty line before it was well formed. */
  lemma {:induction false} ParseLinesFirstError(lines: seq<string>)
    requires ParseLines(lines).Err?
    ensures exists i :: 0 <= i < |lines| && lines[i] != [] &&
              ParseLine(lines[i]) == Err(ParseLines(lines).error) &&
              forall j :: 0 <= j < i ==> lines[j] == [] || ParseLine(lines[j]).Ok?
  {
    var e := ParseLines(lines).error;
    if lines[0] != [] && ParseLine(lines[0]).Err? {
      assert ParseLine(lines[0]) == Err(e);
    } else {
      ParseLinesFirstError(lines[1..]);
      var i :| 0 <= i < |lines[1..]| && lines[1..][i] != [] &&
               ParseLine(lines[1..][i]) == Err(ParseLines(lines[1..]).error) &&
               forall j :: 0 <= j < i ==> lines[1..][j] == [] || ParseLine(lines[1..][j]).Ok?;
      assert forall j :: 1 <= j < i + 1 ==> lines[j] == lines[1..][j - 1];
      assert lines[i + 1] != [] && ParseLine(lines[i + 1]) == Err(e);
    }
  }

  /** One malformed line anywhere makes the whole parse fail, whatever
      surrounds it. */
  lemma MalformedLineAborts(before: seq<string>, bad: string, after: seq<string>)
    requires bad != [] && Occurrences(bad, FieldSeparator) != 2
    ensures ParseLines(before + [bad] + after).Err?
  {
    var lines := before + [bad] + after;
    assert lines[|before|] == bad;
    ParseLinesOk(lines);
  }

  /** A client name that itself holds a `$`, as the names of machine
      accounts do, gives a line with too many fields: the AS-REQ parse of the
      whole output fails on it. */
  lemma SeparatorInNameAborts(user: string, realm: string, cipher: string)
    requires FieldSeparator in user
    ensures ParseLine(user + [FieldSeparator] + realm + [FieldSeparator] + cipher) == Err(TooManyValues)
  {
    SeparatorsOfLayout(user, realm, cipher);
  }

  /** Well-formed blocks of lines parse block by block. */
  lemma {:induction false} ParseLinesAppend(a: seq<string>, b: seq<string>)
    requires ParseLines(a).Ok? && ParseLines(b).Ok?
    ensures ParseLines(a + b) == Ok(ParseLines(a).value + ParseLines(b).value)
    decreases |a|
  {
    var ab := a + b;
    if |a| == 0 {
      assert ab == b;
      assert ParseLines(a).value + ParseLines(b).value == ParseLines(b).value;
    } else {
      assert ab[0] == a[0];
      assert ab[1..] == a[1..] + b;
      var tail := ParseLines(a[1..]);
      assert tail.Ok?;
      ParseLinesAppend(a[1..], b);
      StepAppend(a[0], tail.value, ParseLines(b).value);
    }
  }

  /** A successful iteration in front of more records keeps them after its own. */
  lemma StepAppend(line: string, recs: seq<Record>, more: seq<Record>)
    requires Step(line, Ok(recs)).Ok?
    ensures Step(line, Ok(recs + more)) == Ok(Step(line, Ok(recs)).value + more)
  {
    if line != [] {
      var x := ParseLine(line).value;
      assert [x] + (recs + more) == ([x] + recs) + more;
    }
  }

  /** Empty or all-whitespace output parses to no records. */
  lemma ParseBlank(stdout: string)
    requires forall i :: 0 <= i < |stdout| ==> IsSpace(stdout[i])
    ensures Parse(stdout) == Ok([])
  {
    assert Strip(stdout) == [];
    assert Lines(stdout) == [[]];
    assert Lines(stdout)[1..] == [];
    assert ParseLines(Lines(stdout)[1..]) == Ok([]);
  }
}
