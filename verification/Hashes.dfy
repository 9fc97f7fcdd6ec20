/** The two hash-line layouts `main` prints, one line per record:
    `$krb5pa$18$user$realm$cipher` for AS-REQ pre-authentication data and
    `$krb5asrep$23$user@realm:head$rest` for AS-REP session-key material.
    The `18` and `23` are literal text; no encryption type is checked. */
module Hashes {
  import opened Results
  import opened Text
  import opened Dissector
  import AsReq
  import AsRep

  const AsReqPrefix: string := "$krb5pa$18$"

  const AsRepPrefix: string := "$krb5asrep$23$"

  /** Separates the client name from the realm in an AS-REP hash line. */
  const RealmMark: char := '@'

  /** Separates the realm from the cipher text in an AS-REP hash line. */
  const CipherMark: char := ':'

  /** The AS-REQ line printed for one record. */
  function FormatAsReq(r: AsReq.Record): string {
    AsReqPrefix + r.username + [FieldSeparator] + r.domain + [FieldSeparator] + r.cipher
  }

  /** The AS-REP line printed for one record. */
  function FormatAsRep(r: AsRep.Record): string {
    AsRepPrefix + r.username + [RealmMark] + r.domain + [CipherMark] + r.first16 + [FieldSeparator] + r.remaining
  }

  /** The AS-REQ hash of a parsed line is that very line behind the prefix. */
  lemma AsReqHashOfLine(line: string)
    requires AsReq.ParseLine(line).Ok?
    ensures FormatAsReq(AsReq.ParseLine(line).value) == AsReqPrefix + line
  {
  }

  /** A reader of AS-REQ hash lines: the prefix, then a dissector line. */
  function DecodeAsReq(h: string): Option<AsReq.Record> {
    if |h| < |AsReqPrefix| || h[..|AsReqPrefix|] != AsReqPrefix then None
    else
      match AsReq.ParseLine(h[|AsReqPrefix|..])
      case Ok(r) => Some(r)
      case Err(_) => None
  }

  /** Every parsed AS-REQ record is read back from its hash line. */
  lemma AsReqHashRoundTrip(r: AsReq.Record)
    requires AsReq.Clean(r)
    ensures DecodeAsReq(FormatAsReq(r)) == Some(r)
  {
    var h := FormatAsReq(r);
    assert h == AsReqPrefix + AsReq.Line(r);
    assert h[..|AsReqPrefix|] == AsReqPrefix;
    assert h[|AsReqPrefix|..] == AsReq.Line(r);
    AsReq.ParseLineOfRecord(r);
  }

  /** A reader of AS-REP hash lines: the prefix, the client name up to the
      first `@`, the realm up to the next `:`, then the two cipher pieces
      around the next `$`. */
  function DecodeAsRep(h: string): Option<AsRep.Record> {
    if |h| < |AsRepPrefix| || h[..|AsRepPrefix|] != AsRepPrefix then None
    else
      match SplitOnce(h[|AsRepPrefix|..], RealmMark)
      case None => None
      case Some((user, afterUser)) =>
        match SplitOnce(afterUser, CipherMark)
        case None => None
        case Some((realm, cipher)) =>
          match SplitOnce(cipher, FieldSeparator)
          case None => None
          case Some((head, rest)) => Some(AsRep.Record(user, realm, head, rest))
  }

  /** The AS-REP layout is unambiguous when the client name holds no `@` and
      the realm no `:`: such a record is read back from its hash line. */
  lemma AsRepHashRoundTrip(r: AsRep.Record)
    requires RealmMark !in r.username && CipherMark !in r.domain
    requires FieldSeparator !in r.first16
    ensures DecodeAsRep(FormatAsRep(r)) == Some(r)
  {
    var h := FormatAsRep(r);
    var cipher := r.first16 + [FieldSeparator] + r.remaining;
    var afterUser := r.domain + [CipherMark] + cipher;
    var body := r.username + [RealmMark] + afterUser;
    assert h == AsRepPrefix + body;
    assert h[..|AsRepPrefix|] == AsRepPrefix;
    assert h[|AsRepPrefix|..] == body;
    SplitOnceAt(r.username, RealmMark, afterUser);
    SplitOnceAt(r.domain, CipherMark, cipher);
    SplitOnceAt(r.first16, FieldSeparator, r.remaining);
  }

  /** Every record the AS-REP parser produces whose client name holds no `@`
      and whose realm holds no `:` is read back from its hash line. */
  lemma ParsedAsRepRoundTrip(line: string)
    requires AsRep.ParseLine(line).Some?
    requires RealmMark !in AsRep.ParseLine(line).value.username
    requires CipherMark !in AsRep.ParseLine(line).value.domain
    ensures DecodeAsRep(FormatAsRep(AsRep.ParseLine(line).value)) == AsRep.ParseLine(line)
  {
    AsRepHashRoundTrip(AsRep.ParseLine(line).value);
  }

  /** The hash lines of a list of AS-REQ records, in order. */
  function FormatAllAsReq(recs: seq<AsReq.Record>): (lines: seq<string>)
    ensures |lines| == |recs|
    ensures forall k :: 0 <= k < |recs| ==> lines[k] == FormatAsReq(recs[k])
  {
    if |recs| == 0 then [] else [FormatAsReq(recs[0])] + FormatAllAsReq(recs[1..])
  }

  /** The hash lines of a list of AS-REP records, in order. */
  function FormatAllAsRep(recs: seq<AsRep.Record>): (lines: seq<string>)
    ensures |lines| == |recs|
    ensures forall k :: 0 <= k < |recs| ==> lines[k] == FormatAsRep(recs[k])
  {
    if |recs| == 0 then [] else [FormatAsRep(recs[0])] + FormatAllAsRep(recs[1..])
  }

  /** A successful AS-REQ parse prints each non-empty dissector line behind
      the prefix, in order. */
  lemma AsReqHashesOfLines(lines: seq<string>)
    requires AsReq.ParseLines(lines).Ok?
    ensures |FormatAllAsReq(AsReq.ParseLines(lines).value)| == |NonEmpty(lines)|
    ensures forall k :: 0 <= k < |NonEmpty(lines)| ==>
              FormatAllAsReq(AsReq.ParseLines(lines).value)[k] == AsReqPrefix + NonEmpty(lines)[k]
  {
    var recs := AsReq.ParseLines(lines).value;
    AsReq.ParseLinesRecords(lines);
    forall k | 0 <= k < |NonEmpty(lines)|
      ensures FormatAllAsReq(recs)[k] == AsReqPrefix + NonEmpty(lines)[k]
    {
      assert FormatAsReq(recs[k]) == AsReqPrefix + AsReq.Line(recs[k]);
    }
  }
}
