# Krb5RoastParser text layer, in Dafny

Krb5RoastParser reads a packet capture through the `tshark` dissector and turns
Kerberos AS-REQ pre-authentication data and AS-REP session-key material into
hash lines for offline cracking tools. The dissector is asked for three fields
per packet (`kerberos.CNameString`, `kerberos.realm`, `kerberos.cipher`)
separated by `$`, filtered on message type 10 (`KRB_AS_REQ`) or 11
(`KRB_AS_REP`) of section 7.5.7 of RFC 4120. This project models what the
program does with that text:

- **AS-REQ parsing** (`AsReq`): the output is stripped, cut at newlines, empty
  lines are skipped, and each remaining line must split on `$` into exactly
  three fields. A line that does not raises Python's unpacking `ValueError`,
  which nothing catches, so the whole run fails.
- **AS-REP parsing** (`AsRep`): the same split, but a line with the wrong field
  count is skipped, and so is one whose cipher field has no second
  comma-separated part. The second part (the session-key cipher) is cut after
  32 characters.
- **Output** (`Hashes`): `$krb5pa$18$user$realm$cipher` per AS-REQ record and
  `$krb5asrep$23$user@realm:head$rest` per AS-REP record.
- **Dispatch** (`Cli`): exactly three argv entries, the third one lower-cased
  and compared with `as_req` / `as_rep`; exit status 1 for a usage error, a
  mode error or the uncaught AS-REQ error.

Python's string operations are modelled in `Text`: `str.strip()`,
`str.split(sep)` with its join partner, the slices `s[:n]` / `s[n:]`, and
`str.lower()`. `Dissector` holds the stripping-and-splitting into lines and
the message types; `Results` the `Option` / `Result` types that stand for
`None`-like skips and for raised exceptions.

Properties proved include: split/join round trips in both directions; an
AS-REQ line parses exactly when it holds two `$`, and then its three fields
lay out back to the line; the AS-REQ parse succeeds exactly when every
non-empty line does, yields one record per non-empty line in order, and
otherwise fails with the error of the first bad line; the AS-REP parse is a
line-by-line concatenation, so a skipped line never disturbs the others; the
session-key cut satisfies `head + rest == key` with `|head| == min(32, |key|)`;
an AS-REQ hash line is the dissector line itself behind `$krb5pa$18$`; an
AS-REP hash line reads back to its record when the client name has no `@` and
the realm no `:`; and the dispatch accepts the mode in any letter case and
nothing else.

A client name that contains `$` (the names of Active Directory machine
accounts end in one) gives a line with four fields: in AS-REQ mode this makes
the whole run fail (`AsReq.SeparatorInNameAborts`), in AS-REP mode the line is
skipped (`AsRep.SeparatorInNameSkipped`).

## Model

| member | source | states |
|---|---|---|
| Text.Strip | krb5_roast_parser.py:52 | `strip()` leaves no whitespace at either end, and gives the empty text exactly when the input is all whitespace |
| Text.StripKeepsMiddle | krb5_roast_parser.py:52 | `strip()` keeps one contiguous stretch of the text and removes only whitespace before and after it |
| Text.StripTrimmed | krb5_roast_parser.py:52 | text with no surrounding whitespace is left unchanged by `strip()` |
| Text.Split | krb5_roast_parser.py:54 | `split(sep)` yields one more piece than there are separators, and no piece holds the separator |
| Text.JoinSplit | krb5_roast_parser.py:54 | joining the pieces of a split with the separator gives back the text |
| Text.SplitJoin | krb5_roast_parser.py:54 | splitting the join of separator-free pieces gives back the pieces |
| Text.TakeDrop | krb5_roast_parser.py:89-90 | `s[:n] + s[n:] == s`, and `s[n:]` is empty when `len(s) <= n` |
| Text.LowerMatches | krb5_roast_parser.py:104 | the lower-cased text equals a lower-case word exactly when it spells that word with each letter in either case |
| Dissector.Lines | krb5_roast_parser.py:52 | the output is cut into at least one line, none holding a newline |
| Dissector.LinesJoin | krb5_roast_parser.py:52 | the lines joined with newlines are the stripped output, one line more than it has newlines |
| Dissector.BlankOutputHasNoLines | krb5_roast_parser.py:52-53 | empty or all-whitespace output leaves no non-empty line |
| Dissector.NonEmptyAppend | krb5_roast_parser.py:53 | dropping the empty lines works block by block over a concatenation |
| AsReq.ParseLine | krb5_roast_parser.py:54-55 | a line gives a record exactly when it holds two `$`; the record's fields hold no `$` and lay out back to the line; otherwise the error is "not enough values" with the field count, or "too many values" |
| AsReq.ParseLineOfRecord | krb5_roast_parser.py:54-55 | a record whose fields hold no `$` is read back from its own line |
| AsReq.SeparatorInNameAborts | krb5_roast_parser.py:54 | a client name holding `$` gives the "too many values" error |
| AsReq.ParseLinesOk | krb5_roast_parser.py:51-57 | the parse succeeds exactly when every non-empty line holds two `$` |
| AsReq.ParseLinesRecords | krb5_roast_parser.py:51-57 | a successful parse has one record per non-empty line, in order, each laying out back to its line |
| AsReq.ParseLinesFirstError | krb5_roast_parser.py:52-55 | a failed parse carries the error of a malformed non-empty line before which every non-empty line was well formed |
| AsReq.MalformedLineAborts | krb5_roast_parser.py:52-55 | one malformed non-empty line anywhere makes the whole parse fail |
| AsReq.ParseLinesAppend | krb5_roast_parser.py:51-57 | two well-formed blocks of lines parse to the concatenation of their records |
| AsReq.ParseBlank | krb5_roast_parser.py:52-53 | empty or all-whitespace output parses to no records |
| AsRep.ParseLine | krb5_roast_parser.py:85-91 | a line gives a record exactly when it holds two `$` and its cipher field holds a comma; the client name and realm are the first two fields of the line; the record's two cipher pieces concatenate to the second comma-separated part, the head is `min(32, len)` long and the rest is empty for a part of at most 32 characters |
| AsRep.ParseLineOfLayout | krb5_roast_parser.py:85-91 | for `user$realm$ticket,key` followed by any further comma parts, the record is the name, the realm and `key` cut at 32, whatever follows |
| AsRep.SeparatorInNameSkipped | krb5_roast_parser.py:84-93 | a client name holding `$` makes the line skipped |
| AsRep.ParseLinesAppend | krb5_roast_parser.py:81-95 | the records of a concatenation of lines are those of each part, in order |
| AsRep.SkipMalformed | krb5_roast_parser.py:84-93 | a skipped line between two blocks leaves the records of both blocks, in order |
| AsRep.ParseLinesBound | krb5_roast_parser.py:81-95 | there are at most as many records as non-empty lines |
| AsRep.ParseLinesSound | krb5_roast_parser.py:81-95 | every record is the record of some non-empty input line |
| AsRep.ParseLinesComplete | krb5_roast_parser.py:81-95 | when every non-empty line has a record, the records are those of the non-empty lines, one each, in order |
| AsRep.ParseBlank | krb5_roast_parser.py:82-83 | empty or all-whitespace output parses to no records |
| Hashes.AsReqHashOfLine | krb5_roast_parser.py:109 | the AS-REQ hash of a parsed line is `$krb5pa$18$` followed by the line itself |
| Hashes.AsReqHashRoundTrip | krb5_roast_parser.py:109 | an AS-REQ record with `$`-free fields is read back from its hash line |
| Hashes.AsReqHashesOfLines | krb5_roast_parser.py:107-109 | after a successful parse the printed lines are the non-empty dissector lines behind `$krb5pa$18$`, in order |
| Hashes.AsRepHashRoundTrip | krb5_roast_parser.py:114 | an AS-REP record whose name holds no `@`, realm no `:` and head no `$` is read back from its hash line |
| Hashes.ParsedAsRepRoundTrip | krb5_roast_parser.py:112-114 | a parsed AS-REP record whose name holds no `@` and realm no `:` is read back from its hash line |
| Cli.SelectModeSpec | krb5_roast_parser.py:104-117 | the mode is AS-REQ or AS-REP exactly when the argument spells `as_req` or `as_rep` in any letter case, and neither otherwise |
| Cli.Run | krb5_roast_parser.py:99-118 | three argv entries are required; an unknown mode is an error; the AS-REQ parse error only arises in AS-REQ mode |
| Cli.RunAsReq | krb5_roast_parser.py:106-109 | in AS-REQ mode the run prints exactly when every non-empty line is well formed, printing each such line behind `$krb5pa$18$` in order, and otherwise fails with the error of the first malformed line |
| Cli.RunAsRep | krb5_roast_parser.py:111-114 | in AS-REP mode the run always prints, with status 0, one hash line per record in order, no more lines than non-empty dissector lines |
| Cli.RunRejects | krb5_roast_parser.py:99-118 | a wrong argument count or unknown mode ends with status 1 and the usage or mode message, whatever the dissector would print |

## Left out

- The `tshark` invocation (its argument list and display-filter strings) and its `check=True` failure: external-process I/O. The dissector is the parameter `dissect(path, type)` of `Cli.Run`, the text it prints for the capture at `path` filtered on `type`; its decoding of bytes to text (including newline translation) is its own.
- Writing to standard output and standard error, and `sys.exit`: `Cli.Run` returns the printed lines or the failure, `Cli.ExitStatus` the status, and `Cli.Diagnostic` the message line.
- The traceback text Python prints for the uncaught AS-REQ `ValueError`: the model keeps only which error it was (`Cli.Failure.Unpack`).
- Text.Lower: models `str.lower()` on ASCII letters only. The decision it feeds is unaffected: no non-ASCII character lower-cases in Python to text made of the letters of `as_req` / `as_rep`, so `A`-`Z` are the only characters whose lower-casing matters there.
- Text.IsSpace: the whitespace set of `str.strip()` is written out as the characters Python's `str.isspace()` accepts (TAB to CR, FS to US, SPACE, NEL, NBSP, OGHAM SPACE MARK, EN QUAD to HAIR SPACE, LINE and PARAGRAPH SEPARATOR, NARROW NBSP, MEDIUM MATHEMATICAL SPACE, IDEOGRAPHIC SPACE), fixed rather than taken from a Unicode database.
- The bare `except:` of the AS-REP loop also catches interrupts; only the unpacking error can arise inside it, and that is what the model skips.
- Kerberos, ASN.1 and hex semantics: the cipher text is never checked to be hex or of even length, the cut at 32 is on characters, and `18` / `23` are literal text.
