/** The wire vocabulary shared by client and server: the separator between
    diff entries, the ten-character action names that head every record,
    and the size limits. */
module Consts {
  import opened Base

  /** The separator that ends every entry of a diff buffer. */
  const DiffSep: string := "\n------------\n"

  /** The largest diff payload a record may carry. The factor really is 1204,
      not 1024. */
  const MaxDiffSize: nat := 2 * 1024 * 1204

  /** The out-log is rotated once it grows past this many bytes. */
  const LogMaxSize: nat := 50 * 1048576

  /** The tool's own working directory inside the synced tree. */
  const RepoDir: string := ".unrealsync"

  const DefaultConnectTimeout: nat := 10
  const ServerAliveInterval: nat := 3
  const ServerAliveCountMax: nat := 4

  /** The kinds of record exchanged between client and server. */
  datatype Action = Ping | Pong | Diff | BigInit | BigRcv | BigCommit | BigAbort | StopServer

  /** The record header naming an action: always ten characters, padded with
      blanks. */
  function ActionName(a: Action): (s: string)
    ensures |s| == 10
    ensures s[0] != ' '
  {
    match a
    case Ping => "PING      "
    case Pong => "PONG      "
    case Diff => "DIFF      "
    case BigInit => "BIGINIT   "
    case BigRcv => "BIGRCV    "
    case BigCommit => "BIGCOMMIT "
    case BigAbort => "BIGABORT  "
    case StopServer => "STOPSERVER"
  }

  /** The action a ten-character header names, if any. */
  function ActionOf(s: string): (r: Option<Action>)
    ensures r.Some? ==> ActionName(r.value) == s
  {
    if s == "PING      " then Some(Ping)
    else if s == "PONG      " then Some(Pong)
    else if s == "DIFF      " then Some(Diff)
    else if s == "BIGINIT   " then Some(BigInit)
    else if s == "BIGRCV    " then Some(BigRcv)
    else if s == "BIGCOMMIT " then Some(BigCommit)
    else if s == "BIGABORT  " then Some(BigAbort)
    else if s == "STOPSERVER" then Some(StopServer)
    else None
  }

  /** Every action is recognised by its own header, so distinct actions have
      distinct headers. */
  lemma ActionNameRoundTrip(a: Action)
    ensures ActionOf(ActionName(a)) == Some(a)
  {
  }

  lemma ActionNameInjective(a: Action, b: Action)
    ensures ActionName(a) == ActionName(b) ==> a == b
  {
    ActionNameRoundTrip(a);
    ActionNameRoundTrip(b);
  }
}
