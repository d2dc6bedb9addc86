/** ImpSortException: a failure to process one file, with the file's path
    and one of three reasons. */
module ImpSortExceptions {

  /** ImpSortException.Reason */
  datatype Reason = UnknownLineEnding | UnableToParse | PartialParse

  /** Reason.toString() */
  function ReasonText(r: Reason): string {
    match r
    case UnknownLineEnding => "unknown line ending"
    case UnableToParse => "unable to successfully parse the Java file"
    case PartialParse => "the Java file contained parse errors"
  }

  /** The three reasons read differently. */
  lemma ReasonTextInjective(a: Reason, b: Reason)
    requires ReasonText(a) == ReasonText(b)
    ensures a == b
  {
    assert |ReasonText(UnknownLineEnding)| == 19;
    assert |ReasonText(UnableToParse)| == 42;
    assert |ReasonText(PartialParse)| == 36;
  }

  /** The exception: getPath() and getReason() give back the constructor's
      arguments. */
  datatype ImpSortException = ImpSortException(path: string, reason: Reason)

  /** getMessage(): "file: ", the path, "; reason: ", the reason text. */
  function Message(e: ImpSortException): (m: string)
    ensures |m| == 16 + |e.path| + |ReasonText(e.reason)|
    ensures m[..6] == "file: " && m[6..6 + |e.path|] == e.path
    ensures m[6 + |e.path|..16 + |e.path|] == "; reason: "
    ensures m[16 + |e.path|..] == ReasonText(e.reason)
  {
    "file: " + e.path + "; reason: " + ReasonText(e.reason)
  }

  /** For one file the message names the reason, and for one reason it
      names the file. */
  lemma MessageDetermines(a: ImpSortException, b: ImpSortException)
    requires Message(a) == Message(b)
    requires a.path == b.path || a.reason == b.reason
    ensures a == b
  {
    if a.path == b.path {
      assert ReasonText(a.reason) == Message(a)[16 + |a.path|..];
      ReasonTextInjective(a.reason, b.reason);
    }
  }
}
