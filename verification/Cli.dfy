/** `main`: checks the argument count, picks the parser from the lower-cased
    mode argument, runs the dissector on the capture file and prints one hash
    line per record. The dissector is a parameter: `dissect(path, type)` is
    the text it prints for the capture at `path` filtered on message `type`. */
module Cli {
  import opened Results
  import opened Text
  import opened Dissector
  import opened Hashes
  import AsReq
  import AsRep

  /** The two parsers the mode argument chooses between. */
  datatype Mode = AsReqMode | AsRepMode

  /** Why `main` ends with status 1 instead of printing hash lines. */
  datatype Failure =
    | Usage                        // wrong number of arguments
    | BadMode                      // mode argument names neither parser
    | Unpack(error: AsReq.UnpackError)  // uncaught error from the AS-REQ parser

  /** What one run of `main` ends with. */
  datatype Outcome = Printed(lines: seq<string>) | Failed(failure: Failure)

  const UsageMessage: string := "Usage: python roasting.py <pcap_file> <as_req/as_rep>"

  const ModeMessage: string := "Error: Second argument must be either 'as_req' or 'as_rep'"

  const AsReqWord: string := "as_req"

  const AsRepWord: string := "as_rep"

  /** The process exit status: 1 for the two reported errors and for an
      uncaught exception, 0 otherwise. */
  function ExitStatus(o: Outcome): (status: nat)
    ensures status == 0 <==> o.Printed?
  {
    if o.Printed? then 0 else 1
  }

  /** The line written to standard error, where the source writes one itself. */
  function Diagnostic(f: Failure): Option<string> {
    match f
    case Usage => Some(UsageMessage)
    case BadMode => Some(ModeMessage)
    case Unpack(_) => None
  }

  /** `sys.argv[2].lower()` compared with the two mode names. */
  function SelectMode(arg: string): Option<Mode> {
    var m := Lower(arg);
    if m == AsReqWord then Some(AsReqMode)
    else if m == AsRepWord then Some(AsRepMode)
    else None
  }

  /** The mode argument is accepted in any mix of letter case, and only then. */
  lemma SelectModeSpec(arg: string)
    ensures SelectMode(arg) == Some(AsReqMode) <==> SpelledInAnyCase(arg, AsReqWord)
    ensures SelectMode(arg) == Some(AsRepMode) <==> SpelledInAnyCase(arg, AsRepWord)
    ensures SelectMode(arg).None? <==> !SpelledInAnyCase(arg, AsReqWord) && !SpelledInAnyCase(arg, AsRepWord)
  {
    LowerMatches(arg, AsReqWord);
    LowerMatches(arg, AsRepWord);
  }

  /** One run of `main` on the argument vector `argv` (the script name first). */
  function Run(argv: seq<string>, dissect: (string, MessageType) -> string): (o: Outcome)
    ensures |argv| != 3 ==> o == Failed(Usage)
    ensures |argv| == 3 && SelectMode(argv[2]).None? ==> o == Failed(BadMode)
    ensures o.Failed? && o.failure.Unpack? ==> |argv| == 3 && SelectMode(argv[2]) == Some(AsReqMode)
  {
    if |argv| != 3 then Failed(Usage)
    else
      match SelectMode(argv[2])
      case None => Failed(BadMode)
      case Some(AsReqMode) =>
        (match AsReq.Parse(dissect(argv[1], KrbAsReq))
         case Err(e) => Failed(Unpack(e))
         case Ok(recs) => Printed(FormatAllAsReq(recs)))
      case Some(AsRepMode) => Printed(FormatAllAsRep(AsRep.Parse(dissect(argv[1], KrbAsRep))))
  }

  /** In AS-REQ mode the run prints exactly when every non-empty line of the
      dissector output is well formed, and then prints each such line behind
      the `$krb5pa$18$` prefix, in order; otherwise it fails with the error
      of the first malformed line. */
  lemma RunAsReq(argv: seq<string>, dissect: (string, MessageType) -> string)
    requires |argv| == 3 && SpelledInAnyCase(argv[2], AsReqWord)
    ensures var lines := Lines(dissect(argv[1], KrbAsReq));
            var o := Run(argv, dissect);
            && (o.Printed? <==> AsReq.AllWellFormed(lines))
            && (o.Printed? ==>
                  |o.lines| == |NonEmpty(lines)| &&
                  forall k :: 0 <= k < |NonEmpty(lines)| ==> o.lines[k] == AsReqPrefix + NonEmpty(lines)[k])
            && (o.Failed? ==>
                  o.failure.Unpack? &&
                  exists i :: 0 <= i < |lines| && lines[i] != [] && AsReq.ParseLine(lines[i]) == Err(o.failure.error) &&
                    forall j :: 0 <= j < i ==> lines[j] == [] || AsReq.ParseLine(lines[j]).Ok?)
  {
    SelectModeSpec(argv[2]);
    var lines := Lines(dissect(argv[1], KrbAsReq));
    var parsed := AsReq.ParseLines(lines);
    assert Run(argv, dissect) ==
             if parsed.Ok? then Printed(FormatAllAsReq(parsed.value)) else Failed(Unpack(parsed.error));
    AsReq.ParseLinesOk(lines);
    if parsed.Ok? {
      AsReqHashesOfLines(lines);
    } else {
      AsReq.ParseLinesFirstError(lines);
    }
  }

  /** In AS-REP mode the run always prints, with status 0: one hash line per
      record of the AS-REP parser, in order, never more lines than there are
      non-empty lines of dissector output. */
  lemma RunAsRep(argv: seq<string>, dissect: (string, MessageType) -> string)
    requires |argv| == 3 && SpelledInAnyCase(argv[2], AsRepWord)
    ensures Run(argv, dissect).Printed? && ExitStatus(Run(argv, dissect)) == 0
    ensures var recs := AsRep.Parse(dissect(argv[1], KrbAsRep));
            && |Run(argv, dissect).lines| == |recs|
            && |recs| <= |NonEmpty(Lines(dissect(argv[1], KrbAsRep)))|
            && forall k :: 0 <= k < |recs| ==> Run(argv, dissect).lines[k] == FormatAsRep(recs[k])
  {
    SelectModeSpec(argv[2]);
    AsRep.ParseLinesBound(Lines(dissect(argv[1], KrbAsRep)));
  }

  /** Wrong usage ends with status 1 and the matching message, before the
      dissector is consulted. */
  lemma RunRejects(argv: seq<string>, dissect: (string, MessageType) -> string)
    requires |argv| != 3 || (!SpelledInAnyCase(argv[2], AsReqWord) && !SpelledInAnyCase(argv[2], AsRepWord))
    ensures ExitStatus(Run(argv, dissect)) == 1
    ensures |argv| != 3 ==> Diagnostic(Run(argv, dissect).failure) == Some(UsageMessage)
    ensures |argv| == 3 ==> Diagnostic(Run(argv, dissect).failure) == Some(ModeMessage)
    ensures forall other: (string, MessageType) -> string :: Run(argv, other) == Run(argv, dissect)
  {
    if |argv| == 3 {
      SelectModeSpec(argv[2]);
    }
  }
}
