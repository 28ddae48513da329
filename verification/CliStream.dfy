/** Writing to the standard streams, and how a lost diagnostic changes the return code. */
module CliStream {
  import opened Bytes
  import opened Sinks

  /** What a diagnostic line is about; its wording is a parameter. */
  datatype Diagnostic =
    | InvalidOutputFormat | InvalidKeyFormat | MissingArgument | InvalidOption
    | KeyRequired | KeyEmpty | KeyIdTooLong | TooManyArguments | BothFromStdin
    | HandlersNotInstalled | NothingToReport
    | KeyReadFailed(cause: Status) | KeyInputEmpty | KeyInputTooLong | KeyInvalid
    | PlaintextReadFailed(cause: Status) | PlaintextTooLong | PlaintextEmpty
    | OutOfMemory | Interrupted | SealFailed(cause: Status) | OutputFailed(cause: Status)

  /** The texts the program prints besides its output. */
  datatype Texts = Texts(wording: Diagnostic -> seq<byte>, usage: seq<byte>, version: seq<byte>)
  {
    /** Every diagnostic line says something. */
    ghost predicate Valid()
    {
      (forall d :: wording(d) != []) && usage != [] && version != []
    }
  }

  /** Something was added to a stream, at least if no operation on it failed. */
  predicate Told(before: seq<byte>, after: seq<byte>, delivered: bool)
  {
    before <= after && (delivered ==> before < after)
  }

  method WriteStream(stream: Sink, text: seq<byte>) returns (rc: Status)
    modifies stream
    ensures rc == if stream.faults == old(stream.faults) then SALT_OK else SALT_ERR_IO
    ensures Gained(old(stream.data), stream.data, text, stream.faults == old(stream.faults))
    ensures stream.faults != old(stream.faults) <==> stream.Loses(old(stream.ops), text)
    ensures stream.faults >= old(stream.faults)
  {
    var ok := stream.Write(text);
    if !ok {
      return SALT_ERR_IO;
    }
    ok := stream.Flush();
    return if ok then SALT_OK else SALT_ERR_IO;
  }

  /** Reports a status: it is passed on if the diagnostic gets out, and becomes an I/O error if not. */
  method Report(err: Sink, texts: Texts, d: Diagnostic, status: Status) returns (rc: Status)
    requires texts.Valid()
    modifies err
    ensures rc == if err.faults == old(err.faults) then status else SALT_ERR_IO
    ensures Gained(old(err.data), err.data, texts.wording(d), err.faults == old(err.faults))
    ensures err.faults != old(err.faults) <==> err.Loses(old(err.ops), texts.wording(d))
    ensures err.faults >= old(err.faults) && Told(old(err.data), err.data, err.faults == old(err.faults))
  {
    assert texts.wording(d) != [];
    rc := WriteStream(err, texts.wording(d));
    return if rc == SALT_OK then status else SALT_ERR_IO;
  }
}
