/** The `--splash` path of `Main`: find the splash bitmap in the manifest and undo its
    XOR-0x36 obfuscation, dropping the 28-byte header before the image proper. */
module Splash {
  import opened Wrappers
  import opened FileInfos

  /** The length of the header `readFully` discards. */
  const HeaderLength: nat := 28

  /** The file name the splash record's path contains. */
  const SplashName: string := "sp_32b_01.bmp"

  /** The XOR key of the splash file. */
  const Key: bv8 := 0x36

  /** What `read()` returns: -1 at end of stream, otherwise a byte 0..255. */
  datatype ReadResult = End | Byte(value: bv8)

  /** The filtering `read()`: a data byte is XORed with the key, the -1 end marker is
      passed through as it is. */
  function XorRead(b: ReadResult): (r: ReadResult)
    ensures r.End? <==> b.End?
    ensures r.Byte? ==> r.value != b.value && r.value ^ b.value == Key
  {
    match b
    case End => End
    case Byte(x) => Byte(x ^ Key)
  }

  /** The filter is its own inverse, byte by byte ... */
  lemma XorReadInvolution(b: ReadResult)
    ensures XorRead(XorRead(b)) == b
  {
  }

  /** The filtering `read(b, off, len)`: each of the bytes read is XORed in place. */
  function XorChunk(chunk: seq<bv8>): (r: seq<bv8>)
    ensures |r| == |chunk|
    ensures forall i :: 0 <= i < |r| ==> Byte(r[i]) == XorRead(Byte(chunk[i]))
  {
    if chunk == [] then [] else [chunk[0] ^ Key] + XorChunk(chunk[1..])
  }

  /** ... and on whole chunks. */
  lemma XorChunkInvolution(chunk: seq<bv8>)
    ensures XorChunk(XorChunk(chunk)) == chunk
  {
    var once := XorChunk(chunk);
    var twice := XorChunk(once);
    forall i | 0 <= i < |chunk|
      ensures twice[i] == chunk[i]
    {
      XorReadInvolution(Byte(chunk[i]));
    }
  }

  /** However the decoder splits its output into reads, the filtered bytes are the same. */
  lemma XorChunkSplit(a: seq<bv8>, b: seq<bv8>)
    ensures XorChunk(a + b) == XorChunk(a) + XorChunk(b)
  {
    var whole := XorChunk(a + b);
    var parts := XorChunk(a) + XorChunk(b);
    forall i | 0 <= i < |whole|
      ensures whole[i] == parts[i]
    {
      if i >= |a| {
        assert (a + b)[i] == b[i - |a|];
      }
    }
  }

  /** Why showing the splash fails: the decoded file is shorter than its header, so
      `readFully` throws `EOFException`. */
  datatype SplashError = HeaderTruncated

  /** The image bytes handed to `ImageIO.read`: the decoded file unXORed, header dropped. */
  function SplashImage(decoded: seq<bv8>): (r: Result<seq<bv8>, SplashError>)
    ensures r.Failure? <==> |decoded| < HeaderLength
    ensures r.Success? ==> |r.value| == |decoded| - HeaderLength
    ensures r.Success? ==> forall i :: 0 <= i < |r.value| ==>
              Byte(r.value[i]) == XorRead(Byte(decoded[HeaderLength + i]))
  {
    if |decoded| < HeaderLength then Failure(HeaderTruncated) else Success(XorChunk(decoded)[HeaderLength..])
  }

  predicate OccursAt(s: string, sub: string, i: int) {
    0 <= i <= |s| - |sub| && s[i..i + |sub|] == sub
  }

  predicate Contains(s: string, sub: string) {
    exists i :: 0 <= i <= |s| && OccursAt(s, sub, i)
  }

  /** `fileInfoList.stream().filter(path contains "sp_32b_01.bmp").findAny()`. */
  function FindSplash(records: seq<FileInfo>): (r: Option<FileInfo>)
    ensures r.None? <==> forall i :: 0 <= i < |records| ==> !Contains(records[i].path, SplashName)
    ensures r.Some? ==> r.value in records && Contains(r.value.path, SplashName)
  {
    if records == [] then None
    else if Contains(records[0].path, SplashName) then Some(records[0])
    else
      var r := FindSplash(records[1..]);
      assert forall i :: 1 <= i < |records| ==> records[i] == records[1..][i - 1];
      r
  }
}
