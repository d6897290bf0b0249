# l2_version_switcher, modelled in Dafny

A model of the logic at the core of the Lineage 2 client patch synchroniser `l2_version_switcher`.
For one (host, game, version), the client fetches the manifest of the patch server. The manifest is
a list of `path:size:hash:0` records. The client then selects the local files that are missing or
out of date and downloads each of them. A file comes either as a whole `.zip` package or as
numbered `.z01`, `.z02`, ... segments, and the client copies the bytes to disk through a bounded
buffer. With `--splash` it instead finds the splash bitmap and decodes its XOR-0x36 obfuscation.

The modules follow the Java classes:

| module | models |
|---|---|
| `Wrappers` | `Option` and `Result`; a `Failure` stands for a thrown exception |
| `Bytes` | Java `int` (`Int32`), stream bytes 0..255 (`Octet`), signed `byte` (`JByte`), the `(byte)` cast |
| `Decimal` | `%d` and `%02d` formatting, `Integer.parseInt` |
| `Tokenizer` | `java.util.StringTokenizer` with delimiter `:` |
| `FileInfos` | `FileInfo`, `toString`, `parse` |
| `Hex` | `Util.hexToBin`, `Util.parseHexBinary` |
| `Util` | `Util.getFileInfo`, `Util.hashEquals` |
| `Http` | the patch server: a finite map from URL to response; any other URL answers 404 |
| `Helper` | the URL builders of `Helper`, `isAvailable`, path normalisation |
| `Download` | `getDownloadStream` and the `PartsInputStream` state machine |
| `Sync` | the "needs update" filter of `Main` and the ordered selection |
| `Transfer` | the buffered copy loop of a download job |
| `Splash` | the `--splash` path: finding the record, the XOR filter, the 28-byte header |

The remote server, SHA-1, the local file tree and the path filter are parameters. `Remote` is a
`map<string, Response>`. SHA-1 is a function `digest`. The local tree is a function from manifest
path to `LocalFile`. The filter is an optional predicate. How many bytes a stream hands over per
`read` is a parameter `chunk`.

Some behaviour of the code is easy to mistake for something else. The model follows the code:

- `parse` needs only three tokens. A line `path:size:hash` without the reserved flag is accepted,
  and anything after the third token is ignored.
- `parse` does not check the hash at all. Any non-empty, colon-free token is accepted, so a
  malformed digest does not fail the manifest decode.
- A malformed digest is found only when `hashEquals` decodes it. `parseHexBinary` then throws
  `IllegalArgumentException`. That is not an `IOException`, so the selection lambda does not catch
  it and the whole selection fails (`Sync.Crash`). The file is not simply marked "needs update".
- Empty fields are not kept. `StringTokenizer` skips them, so later fields move one place left.
- The segmented stream never reports end of stream itself. A single-byte `read()` past the last
  segment raises the `IOException` of the first segment that does not answer 200.

## Model

| member | source | states |
|---|---|---|
| Decimal.ParseInt | src/main/java/acmi/l2/clientmod/l2_version_switcher/FileInfo.java:55 | `Integer.parseInt` on the size token succeeds exactly for an optionally signed run of decimal digits whose value fits a Java `int`, and returns that value; the empty string and a non-number are told apart |
| Decimal.ParseIntOfIntToString | src/main/java/acmi/l2/clientmod/l2_version_switcher/FileInfo.java:50-55 | the `%d` rendering of every Java `int`, negative ones included, parses back to the same `int` |
| Decimal.IntToString | src/main/java/acmi/l2/clientmod/l2_version_switcher/FileInfo.java:50 | `%d` writes a non-negative value as digits only, and a negative one as `-` followed by digits, in the shortest form: no leading zero except for 0 itself |
| Decimal.Pad2 | src/main/java/acmi/l2/clientmod/l2_version_switcher/Helper.java:108 | `%02d` writes at least two digits: exactly two, the first `0`, below 10, and no leading zero from 10 on |
| Decimal.IntToStringInjective | src/main/java/acmi/l2/clientmod/l2_version_switcher/Helper.java:54 | distinct `int`s have distinct `%d` renderings |
| Decimal.Pad2Value | src/main/java/acmi/l2/clientmod/l2_version_switcher/Helper.java:108 | the `%02d` rendering of a segment number reads back as that number |
| Decimal.Pad2Wide | src/main/java/acmi/l2/clientmod/l2_version_switcher/Helper.java:108 | from 10 on, `%02d` adds no padding: it is the plain decimal rendering |
| Tokenizer.TokensOfJoin | src/main/java/acmi/l2/clientmod/l2_version_switcher/FileInfo.java:54 | tokenising the `:`-join of non-empty, colon-free tokens gives back exactly those tokens |
| Tokenizer.TokensSplit | src/main/java/acmi/l2/clientmod/l2_version_switcher/FileInfo.java:54 | the tokens of `x:y` are the tokens of `x` followed by those of `y` |
| Tokenizer.DoubledSepCollapses | src/main/java/acmi/l2/clientmod/l2_version_switcher/FileInfo.java:54 | a doubled `:` yields the same tokens as a single one: no empty token appears |
| FileInfos.ToString | src/main/java/acmi/l2/clientmod/l2_version_switcher/FileInfo.java:49-51 | the rendered line starts with the path and `:`, ends in `:0`, and is longer than path and hash together by at least five characters |
| FileInfos.ToStringFields | src/main/java/acmi/l2/clientmod/l2_version_switcher/FileInfo.java:49-51 | the rendered line splits at `:` into exactly path, the decimal size, hash and `"0"` |
| FileInfos.Parse | src/main/java/acmi/l2/clientmod/l2_version_switcher/FileInfo.java:53-56 | parsing succeeds iff there are at least three tokens and the second is a Java `int`; the record holds tokens one, two (as a number) and three; fewer than two tokens, or exactly two with a good size, throw `NoSuchElementException`; a bad size throws `NumberFormatException` naming that token |
| FileInfos.ParseToString | src/main/java/acmi/l2/clientmod/l2_version_switcher/FileInfo.java:49-56 | round trip: parsing the rendered line rebuilds the record for every `int` size, whenever path and hash are non-empty and colon-free |
| FileInfos.ParseIgnoresLaterTokens | src/main/java/acmi/l2/clientmod/l2_version_switcher/FileInfo.java:55 | once a line has three tokens, anything appended after a `:` does not change the parse |
| FileInfos.ParseCollapsesEmptyField | src/main/java/acmi/l2/clientmod/l2_version_switcher/FileInfo.java:54-55 | an empty field between two `:` changes nothing: the later fields move left |
| FileInfos.EmptyPathShiftsFields | src/main/java/acmi/l2/clientmod/l2_version_switcher/FileInfo.java:54-55 | with an empty path the hash lands in the size position; whenever the hash is not a Java `int` (a 40-digit digest is out of range, a hex digest is not a number) parsing fails with `NumberFormatException` naming the hash and its reason |
| Hex.HexToBin | src/main/java/acmi/l2/clientmod/l2_version_switcher/Util.java:85-96 | the value lies in -1..15, and it is -1 exactly for characters outside `[0-9A-Fa-f]` |
| Hex.HexToBinOfHexDigit | src/main/java/acmi/l2/clientmod/l2_version_switcher/Util.java:85-96 | `hexToBin` gives back the value of every digit 0..15 written in either case |
| Hex.HexBinary | src/main/java/acmi/l2/clientmod/l2_version_switcher/Util.java:63-83 | odd length fails first; an even-length string with a non-hex character fails; otherwise the result has `len/2` bytes and byte `k` is `16*hex(s[2k]) + hex(s[2k+1])` cast to a signed byte |
| Hex.ParseHexBinary | src/main/java/acmi/l2/clientmod/l2_version_switcher/Util.java:63-83 | the array-filling loop of the source computes exactly the reference decoding `HexBinary`, errors included |
| Hex.CaseInsensitive | src/main/java/acmi/l2/clientmod/l2_version_switcher/Util.java:89-94 | strings that differ only in the case of A-F decode to the same bytes, or fail the same way |
| Hex.HexBinaryOfToHex | src/main/java/acmi/l2/clientmod/l2_version_switcher/Util.java:63-83 | round trip: decoding the two-digit hex text of any signed bytes, upper or lower case, gives back those bytes |
| Util.GetFileInfo | src/main/java/acmi/l2/clientmod/l2_version_switcher/Util.java:38-43 | decoding succeeds iff every line parses, giving one record per line in line order; on failure the error is that of the first bad line |
| Util.ManifestRoundTrip | src/main/java/acmi/l2/clientmod/l2_version_switcher/Util.java:38-43 | decoding the rendered lines of any well-formed records gives back those records, in order |
| Util.BlankLineFailsManifest | src/main/java/acmi/l2/clientmod/l2_version_switcher/Util.java:38-43 | one blank line anywhere makes the whole manifest decode fail |
| Util.HashEquals | src/main/java/acmi/l2/clientmod/l2_version_switcher/Util.java:49-61 | an unreadable file throws the `IOException`; otherwise a non-hex hash throws the decoder's error instead of answering false; otherwise the answer is true iff the digest equals the decoded hash |
| Util.HashEqualsOwnDigest | src/main/java/acmi/l2/clientmod/l2_version_switcher/Util.java:49-61 | a file matches a hash that spells its own digest, in either letter case |
| Http.ErrorOf | src/main/java/acmi/l2/clientmod/l2_version_switcher/Helper.java:111-115 | a failed connection gives `ConnectionFailed`; a non-200 response gives an error that carries its status |
| Helper.Helper.BaseUrl | src/main/java/acmi/l2/clientmod/l2_version_switcher/Helper.java:53-55 | the base URL starts with `http://` and the host followed by `/`, and ends in `/Patch` |
| Helper.Helper.FileInfoMapZipUrl | src/main/java/acmi/l2/clientmod/l2_version_switcher/Helper.java:57-59 | the manifest URL lies under the base URL, as `/FileInfoMap_...`, and ends in `.dat.zip` |
| Helper.DistinctVersionsDistinctManifestUrls | src/main/java/acmi/l2/clientmod/l2_version_switcher/Helper.java:57-59 | two versions of a game on one host never share a manifest URL |
| Helper.Helper.TorrentZipUrl | src/main/java/acmi/l2/clientmod/l2_version_switcher/Helper.java:61-63 | the torrent URL lies under the base URL, as `/Full_...`, and ends in `.torrent.zip` |
| Helper.DistinctVersionsDistinctTorrentUrls | src/main/java/acmi/l2/clientmod/l2_version_switcher/Helper.java:61-63 | two versions of a game on one host never share a torrent URL |
| Helper.IsAvailable | src/main/java/acmi/l2/clientmod/l2_version_switcher/Helper.java:65-69 | the answer is true iff the manifest URL answers 200; it throws iff no connection can be made |
| Helper.NormalizePath | src/main/java/acmi/l2/clientmod/l2_version_switcher/Helper.java:79 | the result has the same length, every backslash replaced by `/` and every other character in place |
| Helper.NormalizePathIdempotent | src/main/java/acmi/l2/clientmod/l2_version_switcher/Helper.java:79 | normalising an already normalised path changes nothing |
| Helper.SegmentUrl | src/main/java/acmi/l2/clientmod/l2_version_switcher/Helper.java:108 | segment `n` is addressed by the segment prefix followed by decimal digits whose value is `n`: exactly two, the first `0`, below 10, and no leading zero from 10 on |
| Helper.SegmentUrlInjective | src/main/java/acmi/l2/clientmod/l2_version_switcher/Helper.java:108 | distinct segment numbers address distinct URLs |
| Helper.DistinctVersionsDistinctBaseUrls | src/main/java/acmi/l2/clientmod/l2_version_switcher/Helper.java:53-55 | two versions of a game on one host never share a base URL |
| Helper.NoBackslashInFileUrls | src/main/java/acmi/l2/clientmod/l2_version_switcher/Helper.java:78-84 | after normalisation, neither the whole-package URL nor any segment URL contains a backslash, given a host and game without one |
| Helper.DownloadUrl | src/main/java/acmi/l2/clientmod/l2_version_switcher/Helper.java:80 | the whole-package URL is the base URL, `/Zip/`, the path and `.zip`, each at its own position |
| Helper.DownloadUrlIsNoSegmentUrl | src/main/java/acmi/l2/clientmod/l2_version_switcher/Helper.java:80-83 | the whole-package URL of a path differs from every segment URL of that path |
| Download.NextStream | src/main/java/acmi/l2/clientmod/l2_version_switcher/Helper.java:107-116 | the next segment number is fetched; on 200 the state moves to that segment and its body, one number on from the last, with the request log kept in step; any other answer throws with its status |
| Download.Open | src/main/java/acmi/l2/clientmod/l2_version_switcher/Helper.java:91-94 | the constructor fetches segment 1 eagerly, and succeeds iff it answers 200; the stream then holds all segment bytes from 1 on |
| Download.Read | src/main/java/acmi/l2/clientmod/l2_version_switcher/Helper.java:96-105 | a read succeeds iff bytes are still pending and returns the first one; the rest stay pending; at the end it raises the stream's final error and never answers -1; it is lazy: with bytes left in the current segment it fetches nothing, and otherwise it moves to the first later segment with a byte, every segment passed over having answered 200 with an empty body |
| Download.ReadN | src/main/java/acmi/l2/clientmod/l2_version_switcher/Helper.java:96-105 | `n` successive reads return exactly the next `n` pending bytes, in order, or raise the final error if fewer remain |
| Download.SegmentedReadsConcatenation | src/main/java/acmi/l2/clientmod/l2_version_switcher/Helper.java:91-116 | a segmented stream delivers the concatenated segment bodies in index order, then raises the status of the first missing segment |
| Download.GetDownloadStream | src/main/java/acmi/l2/clientmod/l2_version_switcher/Helper.java:78-84 | the path is normalised; a 200 on the whole package gives its body directly; any other status falls back to the segments starting at 1, and fails iff segment 1 does not answer 200, with that segment's error; a failed connection throws |
| Download.ReadByte | src/main/java/acmi/l2/clientmod/l2_version_switcher/Helper.java:83-105 | a whole-package stream answers its next body byte, and -1 exactly when the body is used up; a segmented stream answers its next pending byte, or raises its final error when none is left; only the whole-package stream ever answers -1 |
| Sync.NeedsUpdate | src/main/java/acmi/l2/clientmod/l2_version_switcher/Main.java:138-157 | a record is kept out iff it fails the filter or its local file exists with the manifest size, is readable and has the manifest digest; a missing or unreadable file needs an update; a non-hex hash on a file of the right size crashes the selection |
| Sync.SelectForUpdate | src/main/java/acmi/l2/clientmod/l2_version_switcher/Main.java:136-158 | the selection fails iff the check of some record crashes, with that record's error; otherwise it holds only manifest records |
| Sync.SelectionIsOrderedFilter | src/main/java/acmi/l2/clientmod/l2_version_switcher/Main.java:136-158 | the selection is an order-preserving subsequence of the manifest; it holds each record that needs an update as often as the manifest does, and no other record |
| Sync.SecondRunSelectsNothing | src/main/java/acmi/l2/clientmod/l2_version_switcher/Main.java:136-158 | once every local file matches its record, nothing is selected |
| Transfer.BufferLength | src/main/java/acmi/l2/clientmod/l2_version_switcher/Main.java:178 | the buffer holds the manifest size, capped at 16 MiB; a negative size throws `NegativeArraySizeException` |
| Transfer.JavaRead | src/main/java/acmi/l2/clientmod/l2_version_switcher/Main.java:181 | a read of length 0 returns 0 even at end of stream; otherwise -1 means end of stream, a read with bytes left returns at least one, and a count never exceeds the requested length or what is left |
| Transfer.StepAsWritten | src/main/java/acmi/l2/clientmod/l2_version_switcher/Main.java:181-186 | one iteration of the loop as written keeps `pos` within the buffer and never reads past the input |
| Transfer.RunAsWritten | src/main/java/acmi/l2/clientmod/l2_version_switcher/Main.java:179-187 | after any number of iterations of the loop as written, `pos` is within the buffer and no more than the input has been read |
| Transfer.ZeroSizeCopyNeverEnds | src/main/java/acmi/l2/clientmod/l2_version_switcher/Main.java:178-187 | as written, a record of size 0 gets an empty buffer and the loop never ends: after any number of iterations it has read nothing and is still running |
| Transfer.FixedBufferLength | src/main/java/acmi/l2/clientmod/l2_version_switcher/Main.java:178 | the repaired length is at least 1 and at most 16 MiB, and equals the original for every positive size |
| Transfer.CopyThrough | src/main/java/acmi/l2/clientmod/l2_version_switcher/Main.java:179-190 | when the stream ends normally, the writes concatenate to exactly the input, in order, every write but the last fills the buffer, the last one is non-empty, and nothing is written iff the input is empty; when a read throws, only whole buffers were written, as many as the input fills, and the bytes left in the buffer are lost |
| Transfer.Copy | src/main/java/acmi/l2/clientmod/l2_version_switcher/Main.java:176-198 | a negative manifest size fails before anything is written; a read that throws fails the job with that error after the whole-buffer writes; otherwise the job writes exactly the downloaded bytes, in full-buffer writes plus one final partial write |
| Splash.FindSplash | src/main/java/acmi/l2/clientmod/l2_version_switcher/Main.java:83-85 | nothing is found iff no record's path contains `sp_32b_01.bmp`; a found record is in the manifest and its path contains that name |
| Splash.XorRead | src/main/java/acmi/l2/clientmod/l2_version_switcher/Main.java:89-94 | the -1 end marker passes through; every data byte comes out XORed with 0x36 |
| Splash.XorReadInvolution | src/main/java/acmi/l2/clientmod/l2_version_switcher/Main.java:89-94 | filtering twice gives back what was read |
| Splash.XorChunk | src/main/java/acmi/l2/clientmod/l2_version_switcher/Main.java:97-104 | the bulk read filters each byte it returns exactly as the single-byte read does |
| Splash.XorChunkSplit | src/main/java/acmi/l2/clientmod/l2_version_switcher/Main.java:97-104 | however the stream splits its bytes into bulk reads, the filtered output is the same |
| Splash.SplashImage | src/main/java/acmi/l2/clientmod/l2_version_switcher/Main.java:106-107 | a decoded file shorter than the 28-byte header makes `readFully` throw; otherwise the image is every byte after the header, XORed with 0x36 |

## Left out

- HTTP connections, headers and streaming are not modelled. Each URL has one fixed response: a
  status with a body, or a failed connection. The server publishes finitely many URLs; all others
  answer 404. That finiteness is what makes `Download.Read` terminate.
- LZMA decompression (`Util.getUnzipStream`) is a foreign library. The copy loop and the splash
  filter work on the already decompressed bytes.
- SHA-1 (`MessageDigest`) is a foreign call, modelled as the function parameter `digest`. The
  `NoSuchAlgorithmException` branch of `hashEquals` cannot happen for SHA-1 and is left out.
- UTF-16 decoding and the line splitting of `BufferedReader.lines()` are left out. A manifest is
  given as its sequence of lines.
- `wildcardMatch` and `separatorsToSystem` are library calls. The filter is an abstract predicate
  on the manifest path, and the local tree is looked up by that path.
- `getFileInfoList` only glues the HTTP fetch, LZMA and `getFileInfo` together, so it has no
  member of its own.
- The thread pool, the futures, the synchronised error list and the final barrier of `Main` are
  left out; each download job is modelled alone.
- Argument parsing, `System.exit`, printing, directory creation, file output and the Swing and
  ImageIO splash window are I/O and UI, and are left out.
- `closeCurrentStream` and `close` only release connections and are left out.
- The getters of `FileInfo` and `Helper` are the datatypes' destructors. They return the
  constructor arguments by construction, so they have no members of their own.
- Decimal.ParseInt: accepts ASCII digits only. `Integer.parseInt` also accepts other Unicode decimal
  digits, and `%d` may use locale digits. Neither occurs in manifests or URLs.
- Download.Read: the `int part` counter is unbounded in the model. In Java it would wrap after
  2^31 segments. After a throw the Java stream keeps its incremented `part` and its closed
  `current`; the model returns only the error and drops that state, so reading again after a
  failure is not modelled. The model is the single-byte `read()` only: the inherited bulk
  `read(byte[], int, int)` that `BufferedInputStream` uses swallows an `IOException` raised
  after the first byte and returns a short count instead, which the model does not describe.
- Helper.Helper.BaseUrl: its contract states only the `http://` prefix, the host and the `/Patch`
  suffix; the full format is its body. Proved about it: injectivity in the version
  (`DistinctVersionsDistinctBaseUrls`) and, with `DownloadUrl` and `SegmentUrl`, the absence of
  backslashes (`NoBackslashInFileUrls`).
- Helper.Helper.FileInfoMapZipUrl: its contract states only the base URL, `/FileInfoMap_` and the
  `.dat.zip` suffix, not the game and version between them. Proved about it: injectivity in the
  version (`DistinctVersionsDistinctManifestUrls`).
- Helper.Helper.TorrentZipUrl: its contract states only the base URL, `/Full_` and the
  `.torrent.zip` suffix, not the game and version between them. Proved about it: injectivity in
  the version (`DistinctVersionsDistinctTorrentUrls`).
- Hex.HexBinary: a string is a sequence of Unicode scalar values, while `String.length()` counts
  UTF-16 code units. For a string with a character outside the Basic Multilingual Plane, such as
  an emoji followed by `a`, Java sees an odd length and throws the odd-length error, where the
  model sees an even length and reports an illegal character. Both reject the string, and the
  successful decodings agree, since hex digits are single code units. The same holds for
  `Hex.ParseHexBinary`.
- Transfer.Copy: a failing stream is modelled as delivering some bytes and then throwing on the
  next read. Whether a bulk read that fails part-way first hands over the bytes it had already
  decoded depends on the LZMA library, which is not part of this model.
- Splash: bytes are `bv8` rather than `int`, so that XOR is native. The `int` value -1 of `read()`
  is the constructor `End`.

## Findings

| source | as written | input that shows it | evidently intended | confidence | as-written member | corrected member |
|---|---|---|---|---|---|---|
| src/main/java/acmi/l2/clientmod/l2_version_switcher/Main.java:178-187 | the buffer is `new byte[Math.min(size, 1 << 24)]`. For a size-0 record it is empty, every `read(buffer, 0, 0)` returns 0, and the loop never ends | a manifest record with size 0 whose local file is missing, so it is selected for download | the copy ends, and writes whatever the stream holds (nothing, for a truly empty file) | not executed | Transfer.ZeroSizeCopyNeverEnds | Transfer.Copy (buffer of `Transfer.FixedBufferLength`, at least 1 byte) |
