/** What the parser receives from the packet dissector: the Kerberos message
    type it filtered on, and the dissector's standard output, which the parser
    strips once and cuts into lines. */
module Dissector {
  import opened Text

  /** The two message types of section 7.5.7 of RFC 4120 the tool filters on. */
  datatype MessageType = KrbAsReq | KrbAsRep {
    /** The `msg-type` number in the dissector's display filter. It only
        documents that filter: the dissector itself is a parameter, so no
        contract here depends on the number. */
    function Code(): nat {
      match this
      case KrbAsReq => 10
      case KrbAsRep => 11
    }
  }

  /** The dissector output separates the fields of one packet with this. */
  const FieldSeparator: char := '$'

  /** A line laid out from three fields holds their separators plus the two
      between them. */
  lemma SeparatorsOfLayout(a: string, b: string, c: string)
    ensures Occurrences(a + [FieldSeparator] + b + [FieldSeparator] + c, FieldSeparator) ==
              Occurrences(a, FieldSeparator) + Occurrences(b, FieldSeparator) + Occurrences(c, FieldSeparator) + 2
  {
    var sep := [FieldSeparator];
    assert Occurrences(sep, FieldSeparator) == 1 by {
      assert sep[1..] == [];
    }
    OccurrencesAppend(a, sep, FieldSeparator);
    OccurrencesAppend(a + sep, b, FieldSeparator);
    OccurrencesAppend(a + sep + b, sep, FieldSeparator);
    OccurrencesAppend(a + sep + b + sep, c, FieldSeparator);
  }

  /** `stdout.strip().split("\n")`. */
  function Lines(stdout: string): (r: seq<string>)
    ensures |r| >= 1
    ensures forall i :: 0 <= i < |r| ==> '\n' !in r[i]
  {
    Split(Strip(stdout), '\n')
  }

  /** The lines the parsers look at: those for which `if line:` holds, in
      their original order. */
  function NonEmpty(lines: seq<string>): (r: seq<string>)
    ensures |r| <= |lines|
    ensures forall i :: 0 <= i < |r| ==> r[i] != []
  {
    if |lines| == 0 then []
    else if lines[0] == [] then NonEmpty(lines[1..])
    else [lines[0]] + NonEmpty(lines[1..])
  }

  /** The lines are exactly the stripped output cut at its newlines. */
  lemma LinesJoin(stdout: string)
    ensures Join(Lines(stdout), '\n') == Strip(stdout)
    ensures |Lines(stdout)| == Occurrences(Strip(stdout), '\n') + 1
  {
    JoinSplit(Strip(stdout), '\n');
  }

  /** Output that is empty or only whitespace has no line worth parsing. */
  lemma BlankOutputHasNoLines(stdout: string)
    requires forall i :: 0 <= i < |stdout| ==> IsSpace(stdout[i])
    ensures NonEmpty(Lines(stdout)) == []
  {
    assert Strip(stdout) == [];
    assert Lines(stdout) == [[]];
  }

  /** Skipping empty lines distributes over concatenation. */
  lemma {:induction false} NonEmptyAppend(a: seq<string>, b: seq<string>)
    ensures NonEmpty(a + b) == NonEmpty(a) + NonEmpty(b)
    decreases |a|
  {
    if |a| > 0 {
      assert (a + b)[1..] == a[1..] + b;
      NonEmptyAppend(a[1..], b);
    } else {
      assert a + b == b;
    }
  }
}
