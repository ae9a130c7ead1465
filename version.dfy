/**
 * The signature and version header of a byte-code file
 * (Processor/version.cpp): the two characters "KM" followed by "v4".
 */
module Version {
  import opened Common

  /** "KM" */
  const Signature: seq<Byte> := [75, 77]
  /** "v4" */
  const VersionTag: seq<Byte> := [118, 52]
  const Header: seq<Byte> := Signature + VersionTag
  const HeaderLength: int := 4

  /** A stream that may not have been opened (NULL) */
  type File = Option<seq<Byte>>

  datatype WriteResult = WriteResult(status: int, contents: seq<Byte>)

  /**
   * `write_sign_and_ver`: rewind and write the header over the first four
   * bytes of the file; 1 when the file was not opened, 0 otherwise.
   */
  function WriteSignAndVer(file: File): (r: WriteResult)
    ensures file.None? ==> r.status == 1
    ensures file.Some? ==> r.status == 0 && |r.contents| >= HeaderLength && r.contents[..HeaderLength] == Header
    ensures file.Some? && |file.value| > HeaderLength ==>
              r.contents[HeaderLength..] == file.value[HeaderLength..]
  {
    match file
    case None => WriteResult(1, [])
    case Some(c) =>
      if |c| <= HeaderLength then WriteResult(0, Header)
      else WriteResult(0, Header + c[HeaderLength..])
  }

  /**
   * `check_sign_and_ver`: rewind, read four bytes and compare the signature
   * and the version; the header length 4 on success and -1 on any failure.
   */
  function CheckSignAndVer(file: File): (status: int)
    ensures status == HeaderLength || status == -1
    ensures status == HeaderLength <==>
              file.Some? && |file.value| >= HeaderLength && file.value[..HeaderLength] == Header
  {
    match file
    case None => -1
    case Some(c) =>
      if |c| < HeaderLength then -1
      else if c[..2] != Signature then -1
      else if c[2..4] != VersionTag then -1
      else HeaderLength
  }

  /** The processor's view of a file: the byte code after a verified header */
  function Payload(file: File): (code: Option<seq<Byte>>)
    ensures code.Some? <==> CheckSignAndVer(file) == HeaderLength
    ensures code.Some? ==> file.value == Header + code.value
  {
    if CheckSignAndVer(file) < 0 then None else Some(file.value[HeaderLength..])
  }

  /** A header written by the assembler is accepted by the processor. */
  lemma {:induction false} WriteThenCheck(body: seq<Byte>)
    ensures CheckSignAndVer(Some(WriteSignAndVer(Some(Header + body)).contents)) == HeaderLength
    ensures Payload(Some(WriteSignAndVer(Some(Header + body)).contents)) == Some(body)
  {
    var c := Header + body;
    var w := WriteSignAndVer(Some(c));
    if |c| == HeaderLength {
      assert body == [];
    } else {
      assert c[HeaderLength..] == body;
    }
    assert w.contents == Header + body;
    assert w.contents[HeaderLength..] == body;
  }

  /** Any file whose first bytes differ from "KMv4" is refused. */
  lemma BadSignatureRefused(c: seq<Byte>)
    requires |c| >= 2 && c[..2] != Signature
    ensures CheckSignAndVer(Some(c)) == -1
  {
    if |c| >= HeaderLength {
      assert c[..HeaderLength][..2] == c[..2];
    }
  }
}
