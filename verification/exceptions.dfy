/** The exceptions a download can end in, the two constructors the command
    defines, and the messages those constructors build. */
module Exceptions {
  import opened Values

  /** An exception as the download thread's handlers see it. */
  datatype Exc =
    | StopDownload(uid: PyValue)
    | ChecksumVerificationError(expected: PyValue, calculated: PyValue)
      /** A call with the wrong number of arguments: `takes` counts `self`,
          `given` counts `self` plus the arguments passed. */
    | TypeError(takes: nat, given: nat)
    | ZeroDivisionError
    | ValueError(text: string)
      /** Any error of the transfer or of reading the file (network, disk). */
    | IOFailure(description: string)

  /** `repr` of an exception, left abstract like `repr` of a value. */
  type ExcRepr = Exc -> string

  /** `StopDownload(*args)`: `__init__(self, uid)` needs exactly one argument;
      any other count fails with TypeError before the exception exists. */
  function NewStopDownload(args: seq<PyValue>): (e: Exc)
    ensures e.StopDownload? <==> |args| == 1
    ensures e.StopDownload? ==> e.uid == args[0]
    ensures !e.StopDownload? ==> e == TypeError(2, |args| + 1)
  {
    if |args| == 1 then StopDownload(args[0]) else TypeError(2, |args| + 1)
  }

  /** `ChecksumVerificationError(expected=..., calculated=...)`: both keyword
      arguments are required; a missing one fails with TypeError. */
  function NewChecksumVerificationError(expected: Option<PyValue>, calculated: Option<PyValue>): (e: Exc)
    ensures e.ChecksumVerificationError? <==> expected.Some? && calculated.Some?
    ensures e.ChecksumVerificationError? ==>
              e.expected == expected.value && e.calculated == calculated.value
    ensures !e.ChecksumVerificationError? ==>
              e == TypeError(3, 1 + (if expected.Some? then 1 else 0) + (if calculated.Some? then 1 else 0))
  {
    match (expected, calculated)
    case (Some(x), Some(c)) => ChecksumVerificationError(x, c)
    case (Some(_), None) => TypeError(3, 2)
    case (None, Some(_)) => TypeError(3, 2)
    case (None, None) => TypeError(3, 1)
  }

  const StopPrefix: string := "Download "
  const StopSuffix: string := " has been forcefully stopped"
  const ChecksumPrefix: string := "Checksums do not match: "
  const ChecksumSeparator: string := " != "

  /** The `message` of `StopDownload(uid)`: the uid's repr framed by a fixed
      prefix and suffix. */
  function StopDownloadMessage(repr: Repr, uid: PyValue): (m: string)
    ensures |m| == |StopPrefix| + |repr(uid)| + |StopSuffix|
    ensures m[..|StopPrefix|] == StopPrefix
    ensures m[|StopPrefix|..|m| - |StopSuffix|] == repr(uid)
    ensures m[|m| - |StopSuffix|..] == StopSuffix
  {
    StopPrefix + repr(uid) + StopSuffix
  }

  /** Reads the uid's repr back out of a stop message; None for any text
      that is not framed like one. */
  function StoppedUidText(m: string): (t: Option<string>)
    ensures t.Some? ==> StopPrefix + t.value + StopSuffix == m
  {
    if |m| >= |StopPrefix| + |StopSuffix|
       && m[..|StopPrefix|] == StopPrefix
       && m[|m| - |StopSuffix|..] == StopSuffix
    then
      var t := m[|StopPrefix|..|m| - |StopSuffix|];
      assert m == m[..|StopPrefix|] + t + m[|m| - |StopSuffix|..];
      Some(t)
    else None
  }

  /** The stop message always reads back as the uid's repr. */
  lemma StopMessageRoundTrip(repr: Repr, uid: PyValue)
    ensures StoppedUidText(StopDownloadMessage(repr, uid)) == Some(repr(uid))
  {
  }

  /** Under an injective repr, the stop message names exactly one uid. */
  lemma StopMessageIdentifiesUid(repr: Repr, u1: PyValue, u2: PyValue)
    requires Injective(repr)
    requires StopDownloadMessage(repr, u1) == StopDownloadMessage(repr, u2)
    ensures u1 == u2
  {
    StopMessageRoundTrip(repr, u1);
    StopMessageRoundTrip(repr, u2);
  }

  /** The `message` of a checksum failure: a fixed prefix, then the expected
      digest's repr, the separator, and the calculated digest's repr. */
  function ChecksumMessage(repr: Repr, expected: PyValue, calculated: PyValue): (m: string)
    ensures |m| == |ChecksumPrefix| + |repr(expected)| + |ChecksumSeparator| + |repr(calculated)|
    ensures m[..|ChecksumPrefix|] == ChecksumPrefix
    ensures m[|ChecksumPrefix|..|ChecksumPrefix| + |repr(expected)|] == repr(expected)
    ensures m[|ChecksumPrefix| + |repr(expected)|..|m| - |repr(calculated)|] == ChecksumSeparator
    ensures m[|m| - |repr(calculated)|..] == repr(calculated)
  {
    ChecksumPrefix + repr(expected) + ChecksumSeparator + repr(calculated)
  }

  /** Under an injective repr, two checksum messages whose expected digests
      print equally long are equal only for the same pair of digests: the
      message identifies which digest was expected and which was found. */
  lemma ChecksumMessageIdentifiesDigests(repr: Repr, e1: PyValue, c1: PyValue, e2: PyValue, c2: PyValue)
    requires Injective(repr)
    requires |repr(e1)| == |repr(e2)|
    requires ChecksumMessage(repr, e1, c1) == ChecksumMessage(repr, e2, c2)
    ensures e1 == e2 && c1 == c2
  {
    var m := ChecksumMessage(repr, e1, c1);
    assert repr(e1) == m[|ChecksumPrefix|..|ChecksumPrefix| + |repr(e1)|] == repr(e2);
    assert repr(c1) == m[|m| - |repr(c1)|..];
    assert |repr(c1)| == |repr(c2)|;
    assert repr(c1) == repr(c2);
  }
}
