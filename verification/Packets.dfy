/** The messages of the file transfer, and the file as the sequence of chunks it is sent in. */
module Packets {
  import opened Bytes
  import opened GapLists

  /** A data packet. The payload is a C string: the bytes in front of the terminating NUL. */
  datatype Packet = Packet(seqNo: int, payload: seq<Byte>)

  /** The receiver's report: how many packets it has written, and the gaps above. */
  datatype Report = Report(aru: int, numGaps: int, gaps: seq<Gap>)

  const MAX_MESS_LEN := 1400
  const MAX_GAPS := 100
  const NUM_TO_RESEND := 2

  /** The bytes in front of the first NUL, as strlen counts them. */
  function CString(s: seq<Byte>): (r: seq<Byte>)
    ensures r <= s && 0 !in r
    ensures |r| < |s| ==> s[|r|] == 0
  {
    if s == [] || s[0] == 0 then [] else [s[0]] + CString(s[1..])
  }

  /** What one fread of MAX_MESS_LEN - 1 bytes yields at position `pos` of the file. */
  function ReadChunk(file: seq<Byte>, pos: nat): (r: seq<Byte>)
    requires pos <= |file|
    ensures |r| <= 1399 && pos + |r| <= |file| && r == file[pos..pos + |r|]
    ensures |r| < 1399 ==> pos + |r| == |file|
  {
    if pos + MAX_MESS_LEN - 1 <= |file| then file[pos..pos + MAX_MESS_LEN - 1] else file[pos..]
  }
}
