/** `Util.getFileInfo` (manifest decoding) and `Util.hashEquals` (local digest check).
    The UTF-16 decoding and line splitting of `BufferedReader.lines()` happen before this
    model: a manifest arrives as its sequence of lines. SHA-1 is a parameter `digest`. */
module Util {
  import opened Wrappers
  import opened Bytes
  import opened Tokenizer
  import opened FileInfos
  import opened Hex

  /** `Util.getFileInfo`: every line parsed in order; the first malformed line aborts the
      whole decode with its own error. */
  function GetFileInfo(lines: seq<string>): (r: Result<seq<FileInfo>, ParseError>)
    ensures r.Success? <==> forall i :: 0 <= i < |lines| ==> Parse(lines[i]).Success?
    ensures r.Success? ==> |r.value| == |lines|
    ensures r.Success? ==> forall i :: 0 <= i < |lines| ==> Parse(lines[i]) == Success(r.value[i])
    ensures r.Failure? ==>
      exists i :: 0 <= i < |lines| && Parse(lines[i]) == Failure(r.error)
                  && forall j :: 0 <= j < i ==> Parse(lines[j]).Success?
    decreases |lines|
  {
    if lines == [] then Success([])
    else
      match Parse(lines[0])
      case Failure(e) => Failure(e)
      case Success(fi) =>
        match GetFileInfo(lines[1..])
        case Failure(e) =>
          FailureInTail(lines, e);
          Failure(e)
        case Success(rest) => Success([fi] + rest)
  }

  lemma FailureInTail(lines: seq<string>, e: ParseError)
    requires |lines| >= 1 && Parse(lines[0]).Success?
    requires exists i :: 0 <= i < |lines[1..]| && Parse(lines[1..][i]) == Failure(e)
                         && forall j :: 0 <= j < i ==> Parse(lines[1..][j]).Success?
    ensures exists i :: 0 <= i < |lines| && Parse(lines[i]) == Failure(e)
                        && forall j :: 0 <= j < i ==> Parse(lines[j]).Success?
  {
    var tail := lines[1..];
    var i :| 0 <= i < |tail| && Parse(tail[i]) == Failure(e)
             && forall j :: 0 <= j < i ==> Parse(tail[j]).Success?;
    assert lines[i + 1] == tail[i];
    forall j | 1 <= j < i + 1
      ensures Parse(lines[j]).Success?
    {
      assert lines[j] == tail[j - 1];
    }
    assert Parse(lines[i + 1]) == Failure(e)
           && forall j :: 0 <= j < i + 1 ==> Parse(lines[j]).Success?;
  }

  /** The manifest text for a list of records, one `toString()` line each. */
  function Render(records: seq<FileInfo>): (lines: seq<string>)
    ensures |lines| == |records|
    ensures forall i :: 0 <= i < |records| ==> lines[i] == ToString(records[i])
  {
    if records == [] then [] else [ToString(records[0])] + Render(records[1..])
  }

  /** Round trip of a whole manifest: decoding the rendered lines gives the records back,
      in order. */
  lemma {:induction false} ManifestRoundTrip(records: seq<FileInfo>)
    requires forall i :: 0 <= i < |records| ==> WellFormed(records[i])
    ensures GetFileInfo(Render(records)) == Success(records)
    decreases |records|
  {
    if records != [] {
      var head, tail := records[0], records[1..];
      assert Parse(ToString(head)) == Success(head) by {
        ParseToString(head);
      }
      assert GetFileInfo(Render(tail)) == Success(tail) by {
        assert forall i :: 0 <= i < |tail| ==> tail[i] == records[i + 1];
        ManifestRoundTrip(tail);
      }
      DecodeCons(ToString(head), Render(tail), head, tail);
      assert Render(records) == [ToString(head)] + Render(tail);
      assert [head] + tail == records;
    }
  }

  /** One decoding step: a good first line followed by a good rest. */
  lemma DecodeCons(line: string, rest: seq<string>, fi: FileInfo, fis: seq<FileInfo>)
    requires Parse(line) == Success(fi) && GetFileInfo(rest) == Success(fis)
    ensures GetFileInfo([line] + rest) == Success([fi] + fis)
  {
    assert ([line] + rest)[1..] == rest;
  }

  /** A blank line has no tokens, so one anywhere in the manifest fails the whole decode. */
  lemma BlankLineFailsManifest(lines: seq<string>, i: nat)
    requires i < |lines| && lines[i] == []
    ensures GetFileInfo(lines).Failure?
  {
    assert Parse(lines[i]) == Failure(NoSuchElement);
  }

  /** Why `hashEquals` throws: reading the file failed (`IOException`) or the manifest hash
      is not hex (`IllegalArgumentException` from `parseHexBinary`). */
  datatype HashError = ReadFailed | BadHex(HexError)

  /** `Util.hashEquals(file, hashString)`. `file` is `None` when reading it throws. The whole
      file is digested first, then the expected hash is decoded and the two compared. */
  function HashEquals(file: Option<seq<Octet>>, hash: string, digest: seq<Octet> -> seq<JByte>)
    : (r: Result<bool, HashError>)
    ensures file.None? ==> r == Failure(ReadFailed)
    ensures file.Some? ==> (r.Failure? <==> HexBinary(hash).Failure?)
    ensures file.Some? && r.Failure? ==> r.error == BadHex(HexBinary(hash).error)
    ensures r.Success? ==> (r.value <==> HexBinary(hash) == Success(digest(file.value)))
  {
    match file
    case None => Failure(ReadFailed)
    case Some(bytes) =>
      var actual := digest(bytes);
      match HexBinary(hash)
      case Failure(e) => Failure(BadHex(e))
      case Success(expected) => Success(actual == expected)
  }

  /** A file matches a manifest hash written as its own digest, in either letter case. */
  lemma HashEqualsOwnDigest(bytes: seq<Octet>, upper: bool, digest: seq<Octet> -> seq<JByte>)
    ensures HashEquals(Some(bytes), ToHex(digest(bytes), upper), digest) == Success(true)
  {
    HexBinaryOfToHex(digest(bytes), upper);
  }
}
