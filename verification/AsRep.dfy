/** The text layer of `parse_asrep_packets`: a non-empty line
    `user$realm$ticket,key[,...]` yields the client name, the realm and the
    session-key cipher cut after its first 32 characters; every other line is
    skipped and the loop carries on. */
module AsRep {
  import opened Results
  import opened Text
  import opened Dissector

  /** One AS-REP record: client name, realm, and the session-key cipher text
      split into its first 32 characters and the rest. */
  datatype Record = Record(username: string, domain: string, first16: string, remaining: string)

  /** The dissector joins the two `kerberos.cipher` values of a reply with this. */
  const CipherSeparator: char := ','

  /** 32 hexadecimal characters, the first 16 bytes of the session-key cipher. */
  const HeadLength: nat := 32

  /** The session-key cipher text the record was cut from. */
  function SessionKey(r: Record): string {
    r.first16 + r.remaining
  }

  /** One line: `None` where the source skips it (wrong number of `$` fields,
      or a cipher field without a second comma-separated part). */
  function ParseLine(line: string): (r: Option<Record>)
    ensures r.Some? <==>
              Occurrences(line, FieldSeparator) == 2 && CipherSeparator in Split(line, FieldSeparator)[2]
    ensures r.Some? ==>
              var cipher := Split(line, FieldSeparator)[2];
              && Join([r.value.username, r.value.domain, cipher], FieldSeparator) == line
              && SessionKey(r.value) == Split(cipher, CipherSeparator)[1]
    ensures r.Some? ==>
              && FieldSeparator !in r.value.username && FieldSeparator !in r.value.domain
              && FieldSeparator !in r.value.first16 && FieldSeparator !in r.value.remaining
              && CipherSeparator !in r.value.first16 && CipherSeparator !in r.value.remaining
    ensures r.Some? ==>
              && |r.value.first16| == (if |SessionKey(r.value)| < HeadLength then |SessionKey(r.value)| else HeadLength)
              && (|SessionKey(r.value)| <= HeadLength ==> r.value.remaining == [])
  {
    var fields := Split(line, FieldSeparator);
    if |fields| != 3 then None
    else
      var parts := Split(fields[2], CipherSeparator);
      if |parts| > 1 then
        var key := parts[1];
        JoinSplit(line, FieldSeparator);
        assert fields == [fields[0], fields[1], fields[2]];
        TakeDrop(key, HeadLength);
        KeyFree(fields[2], key);
        Some(Record(fields[0], fields[1], Take(key, HeadLength), Drop(key, HeadLength)))
      else None
  }

  /** A comma-separated part of a `$`-free field is free of both separators,
      and so are its two pieces around any cut. */
  lemma KeyFree(cipher: string, key: string)
    requires FieldSeparator !in cipher
    requires key in Split(cipher, CipherSeparator)
    ensures FieldSeparator !in key && CipherSeparator !in key
    ensures FieldSeparator !in Take(key, HeadLength) && CipherSeparator !in Take(key, HeadLength)
    ensures FieldSeparator !in Drop(key, HeadLength) && CipherSeparator !in Drop(key, HeadLength)
  {
    var parts := Split(cipher, CipherSeparator);
    JoinSplit(cipher, CipherSeparator);
    var i :| 0 <= i < |parts| && parts[i] == key;
    JoinPartInfix(parts, CipherSeparator, i);
  }

  /** Every piece of a join occurs inside the joined text. */
  lemma {:induction false} JoinPartInfix(parts: seq<string>, sep: char, i: nat)
    requires i < |parts|
    ensures forall c :: c in parts[i] ==> c in Join(parts, sep)
    decreases |parts|
  {
    if |parts| > 1 && i > 0 {
      JoinPartInfix(parts[1..], sep, i - 1);
      assert parts[1..][i - 1] == parts[i];
    }
  }

  /** A line in the dissector's layout, whose cipher field has a ticket part,
      a session-key part and possibly further parts, yields exactly the client
      name, the realm and the cut of the second part. */
  lemma ParseLineOfLayout(user: string, realm: string, ticket: string, key: string, extra: string)
    requires FieldSeparator !in user && FieldSeparator !in realm
    requires FieldSeparator !in ticket && FieldSeparator !in key && FieldSeparator !in extra
    requires CipherSeparator !in ticket && CipherSeparator !in key
    requires extra == [] || extra[0] == CipherSeparator
    ensures ParseLine(user + [FieldSeparator] + realm + [FieldSeparator] + ticket + [CipherSeparator] + key + extra)
            == Some(Record(user, realm, Take(key, HeadLength), Drop(key, HeadLength)))
  {
    var cipher := ticket + [CipherSeparator] + key + extra;
    var line := user + [FieldSeparator] + realm + [FieldSeparator] + cipher;
    assert line == user + [FieldSeparator] + realm + [FieldSeparator] + ticket + [CipherSeparator] + key + extra;
    FieldsOfLayout(user, realm, cipher);
    SecondPartOfLayout(ticket, key, extra);
  }

  /** A `$`-free triple laid out with `$` splits back into the triple. */
  lemma FieldsOfLayout(user: string, realm: string, cipher: string)
    requires FieldSeparator !in user && FieldSeparator !in realm && FieldSeparator !in cipher
    ensures Split(user + [FieldSeparator] + realm + [FieldSeparator] + cipher, FieldSeparator) == [user, realm, cipher]
  {
    JoinThree(user, realm, cipher, FieldSeparator);
    SplitJoin([user, realm, cipher], FieldSeparator);
  }

  /** The second comma-separated part of `ticket,key...` is `key`. */
  lemma SecondPartOfLayout(ticket: string, key: string, extra: string)
    requires FieldSeparator !in ticket && FieldSeparator !in key && FieldSeparator !in extra
    requires CipherSeparator !in ticket && CipherSeparator !in key
    requires extra == [] || extra[0] == CipherSeparator
    ensures FieldSeparator !in ticket + [CipherSeparator] + key + extra
    ensures |Split(ticket + [CipherSeparator] + key + extra, CipherSeparator)| > 1
    ensures Split(ticket + [CipherSeparator] + key + extra, CipherSeparator)[1] == key
  {
    var rest := key + extra;
    assert ticket + [CipherSeparator] + key + extra == ticket + [CipherSeparator] + rest;
    SplitAtFirst(ticket, CipherSeparator, rest);
    KeyHeadsRest(key, extra);
  }

  /** `key` is the first comma-separated part of `key` followed by `,...`. */
  lemma KeyHeadsRest(key: string, extra: string)
    requires CipherSeparator !in key
    requires extra == [] || extra[0] == CipherSeparator
    ensures Split(key + extra, CipherSeparator)[0] == key
  {
    if extra == [] {
      assert key + extra == key;
      SplitNoSeparator(key, CipherSeparator);
    } else {
      assert key + extra == key + [CipherSeparator] + extra[1..];
      SplitAtFirst(key, CipherSeparator, extra[1..]);
    }
  }

  /** A client name that itself holds a `$`, as the names of machine
      accounts do, gives a line that the AS-REP parser skips. */
  lemma SeparatorInNameSkipped(user: string, realm: string, cipher: string)
    requires FieldSeparator in user
    ensures ParseLine(user + [FieldSeparator] + realm + [FieldSeparator] + cipher).None?
  {
    SeparatorsOfLayout(user, realm, cipher);
  }

  /** The loop over the lines: each non-empty line contributes its record, if
      it has one, in line order; a skipped line does not stop the loop. */
  function ParseLines(lines: seq<string>): seq<Record>
  {
    if |lines| == 0 then []
    else Accepted(lines[0]) + ParseLines(lines[1..])
  }

  /** What one iteration appends: nothing for an empty or skipped line. */
  function Accepted(line: string): (r: seq<Record>)
    ensures |r| <= 1
    ensures |r| == 1 <==> line != [] && ParseLine(line).Some?
  {
    if line != [] && ParseLine(line).Some? then [ParseLine(line).value] else []
  }

  /** `parse_asrep_packets` applied to the dissector's output text. */
  function Parse(stdout: string): seq<Record> {
    ParseLines(Lines(stdout))
  }

  /** Parsing is line by line: the records of a concatenation are those of
      its two halves, one after the other. */
  lemma {:induction false} ParseLinesAppend(a: seq<string>, b: seq<string>)
    ensures ParseLines(a + b) == ParseLines(a) + ParseLines(b)
    decreases |a|
  {
    if |a| == 0 {
      assert a + b == b;
    } else {
      assert (a + b)[0] == a[0];
      assert (a + b)[1..] == a[1..] + b;
      ParseLinesAppend(a[1..], b);
    }
  }

  /** A skipped line in the middle of the output leaves the records of the
      lines before and after it untouched. */
  lemma SkipMalformed(before: seq<string>, bad: string, after: seq<string>)
    requires ParseLine(bad).None?
    ensures ParseLines(before + [bad] + after) == ParseLines(before) + ParseLines(after)
  {
    ParseLinesAppend(before + [bad], after);
    ParseLinesAppend(before, [bad]);
    assert [bad][1..] == [];
    assert ParseLines([bad]) == Accepted(bad) + ParseLines([]);
    assert ParseLines(before + [bad]) == ParseLines(before);
  }

  /** There is at most one record per non-empty line. */
  lemma {:induction false} ParseLinesBound(lines: seq<string>)
    ensures |ParseLines(lines)| <= |NonEmpty(lines)|
  {
    if |lines| > 0 {
      ParseLinesBound(lines[1..]);
    }
  }

  /** `rec` is the record of some non-empty line of `lines`. */
  predicate FromSomeLine(lines: seq<string>, rec: Record) {
    exists i :: 0 <= i < |lines| && lines[i] != [] && ParseLine(lines[i]) == Some(rec)
  }

  /** Every record comes from some non-empty line of the input. */
  lemma {:induction false} ParseLinesSound(lines: seq<string>)
    ensures forall k :: 0 <= k < |ParseLines(lines)| ==> FromSomeLine(lines, ParseLines(lines)[k])
  {
    if |lines| > 0 {
      var tail := lines[1..];
      ParseLinesSound(tail);
      var head := Accepted(lines[0]);
      var later := ParseLines(tail);
      var recs := ParseLines(lines);
      assert recs == head + later;
      forall k | 0 <= k < |recs|
        ensures FromSomeLine(lines, recs[k])
      {
        if k < |head| {
          assert lines[0] != [] && ParseLine(lines[0]) == Some(recs[k]);
        } else {
          assert recs[k] == later[k - |head|];
          assert FromSomeLine(tail, later[k - |head|]);
          var i :| 0 <= i < |tail| && tail[i] != [] && ParseLine(tail[i]) == Some(later[k - |head|]);
          assert lines[i + 1] == tail[i];
        }
      }
    }
  }

  /** When every non-empty line has a record, the records are exactly those
      of the non-empty lines, in order. */
  lemma {:induction false} ParseLinesComplete(lines: seq<string>)
    requires forall i :: 0 <= i < |lines| ==> lines[i] == [] || ParseLine(lines[i]).Some?
    ensures |ParseLines(lines)| == |NonEmpty(lines)|
    ensures forall k :: 0 <= k < |ParseLines(lines)| ==> Some(ParseLines(lines)[k]) == ParseLine(NonEmpty(lines)[k])
  {
    if |lines| > 0 {
      var tail := lines[1..];
      assert forall i :: 0 <= i < |tail| ==> tail[i] == lines[i + 1];
      ParseLinesComplete(tail);
      var recs := ParseLines(lines);
      var ne := NonEmpty(lines);
      if lines[0] == [] {
        assert recs == ParseLines(tail);
        assert ne == NonEmpty(tail);
      } else {
        assert recs == [ParseLine(lines[0]).value] + ParseLines(tail);
        assert ne == [lines[0]] + NonEmpty(tail);
        forall k | 0 <= k < |recs|
          ensures Some(recs[k]) == ParseLine(ne[k])
        {
          if k > 0 {
            assert recs[k] == ParseLines(tail)[k - 1];
            assert ne[k] == NonEmpty(tail)[k - 1];
          }
        }
      }
    }
  }

  /** Empty or all-whitespace output parses to no records. */
  lemma ParseBlank(stdout: string)
    requires forall i :: 0 <= i < |stdout| ==> IsSpace(stdout[i])
    ensures Parse(stdout) == []
  {
    assert Strip(stdout) == [];
    assert Lines(stdout) == [[]];
    assert Lines(stdout)[1..] == [];
    assert Parse(stdout) == Accepted([]) + ParseLines([]);
  }
}
