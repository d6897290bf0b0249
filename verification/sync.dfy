/** The per-file logic of `Main`: which manifest records need an update, the bounded-buffer
    copy of a download to disk, and the XOR filter that decodes the splash image. */
module Sync {
  import opened Wrappers
  import opened Bytes
  import opened FileInfos
  import opened Hex
  import opened Util

  /** What the local file tree holds at a path: nothing, or a file of some length whose
      contents can be read (`Some`) or whose reading throws `IOException` (`None`). */
  datatype LocalFile = Missing | Present(length: int, contents: Option<seq<Octet>>)

  /** The unchecked exception that escapes the selection: `parseHexBinary` rejecting the
      manifest hash (`IllegalArgumentException` is not an `IOException`). */
  datatype Crash = HashNotHex(HexError)

  /** The optional command-line path filter; `None` selects every record. */
  predicate PassesFilter(fi: FileInfo, filter: Option<string -> bool>) {
    filter.None? || filter.value(fi.path)
  }

  /** The local copy exists, has the manifest size, can be read, and its digest is the one
      the manifest hash spells. */
  predicate UpToDate(fi: FileInfo, local: string -> LocalFile, digest: seq<Octet> -> seq<JByte>) {
    && local(fi.path).Present?
    && local(fi.path).length == fi.size
    && local(fi.path).contents.Some?
    && HexBinary(fi.hash) == Success(digest(local(fi.path).contents.value))
  }

  /** The selection lambda of `Main`: filter first, then `exists && length == size &&
      hashEquals`, short-circuiting; an `IOException` while hashing means "need update". */
  function NeedsUpdate(fi: FileInfo, filter: Option<string -> bool>, local: string -> LocalFile,
                       digest: seq<Octet> -> seq<JByte>): (r: Result<bool, Crash>)
    ensures r == Success(false) <==> !PassesFilter(fi, filter) || UpToDate(fi, local, digest)
    ensures r.Failure? <==>
      && PassesFilter(fi, filter) && local(fi.path).Present? && local(fi.path).length == fi.size
      && local(fi.path).contents.Some? && HexBinary(fi.hash).Failure?
    ensures PassesFilter(fi, filter) && local(fi.path).Missing? ==> r == Success(true)
    ensures PassesFilter(fi, filter) && local(fi.path).Present? && local(fi.path).contents.None?
            ==> r == Success(true)
  {
    if !PassesFilter(fi, filter) then Success(false)
    else
      match local(fi.path)
      case Missing => Success(true)
      case Present(length, contents) =>
        if length != fi.size then Success(true)
        else
          match HashEquals(contents, fi.hash, digest)
          case Failure(ReadFailed) => Success(true)
          case Failure(BadHex(e)) => Failure(HashNotHex(e))
          case Success(same) => Success(!same)
  }

  /** `a` is `b` with some elements left out, the others in their original order. */
  predicate IsSubsequence<T(==)>(a: seq<T>, b: seq<T>)
    decreases |b|
  {
    if a == [] then true
    else if b == [] then false
    else (a[0] == b[0] && IsSubsequence(a[1..], b[1..])) || IsSubsequence(a, b[1..])
  }

  /** How often `x` belongs in the selection: as often as in the manifest if it needs an
      update, otherwise never. */
  function SelectedCount(x: FileInfo, records: seq<FileInfo>, filter: Option<string -> bool>,
                         local: string -> LocalFile, digest: seq<Octet> -> seq<JByte>): nat
  {
    if NeedsUpdate(x, filter, local, digest) == Success(true) then multiset(records)[x] else 0
  }

  /** The `toUpdate` list: the records that need an update, in manifest order. A record
      whose hash is not hex makes the whole selection throw. */
  function SelectForUpdate(records: seq<FileInfo>, filter: Option<string -> bool>,
                           local: string -> LocalFile, digest: seq<Octet> -> seq<JByte>)
    : (r: Result<seq<FileInfo>, Crash>)
    ensures r.Success? <==>
      forall i :: 0 <= i < |records| ==> NeedsUpdate(records[i], filter, local, digest).Success?
    ensures r.Failure? ==>
      exists i :: 0 <= i < |records| && NeedsUpdate(records[i], filter, local, digest) == Failure(r.error)
    ensures r.Success? ==> forall x :: x in r.value ==> x in records
    decreases |records|
  {
    if records == [] then Success([])
    else
      var fi := records[0];
      match NeedsUpdate(fi, filter, local, digest)
      case Failure(e) => Failure(e)
      case Success(need) =>
        match SelectForUpdate(records[1..], filter, local, digest)
        case Failure(e) =>
          CrashInTail(records, filter, local, digest, e);
          Failure(e)
        case Success(rest) =>
          if need then Success([fi] + rest)
          else Success(rest)
  }

  /** The selection keeps manifest order, and holds each record that needs an update as
      often as the manifest does, and no other. */
  lemma {:induction false} SelectionIsOrderedFilter(records: seq<FileInfo>, filter: Option<string -> bool>,
                                                    local: string -> LocalFile, digest: seq<Octet> -> seq<JByte>)
    requires SelectForUpdate(records, filter, local, digest).Success?
    ensures var sel := SelectForUpdate(records, filter, local, digest).value;
      && IsSubsequence(sel, records)
      && forall x :: multiset(sel)[x] == SelectedCount(x, records, filter, local, digest)
    decreases |records|
  {
    if records != [] {
      var fi := records[0];
      var sel := SelectForUpdate(records, filter, local, digest).value;
      var rest := SelectForUpdate(records[1..], filter, local, digest).value;
      SelectionIsOrderedFilter(records[1..], filter, local, digest);
      assert records == [fi] + records[1..];
      if NeedsUpdate(fi, filter, local, digest) == Success(true) {
        assert sel == [fi] + rest;
        assert sel[1..] == rest;
      } else {
        assert sel == rest;
        SubsequenceOfTail(rest, records);
      }
    }
  }

  /** Dropping the head of the longer sequence keeps a subsequence one. */
  lemma SubsequenceOfTail<T>(a: seq<T>, b: seq<T>)
    requires |b| >= 1 && IsSubsequence(a, b[1..])
    ensures IsSubsequence(a, b)
  {
  }

  lemma CrashInTail(records: seq<FileInfo>, filter: Option<string -> bool>,
                    local: string -> LocalFile, digest: seq<Octet> -> seq<JByte>, e: Crash)
    requires |records| >= 1
    requires exists i :: 0 <= i < |records[1..]| && NeedsUpdate(records[1..][i], filter, local, digest) == Failure(e)
    ensures exists i :: 0 <= i < |records| && NeedsUpdate(records[i], filter, local, digest) == Failure(e)
  {
    var i :| 0 <= i < |records[1..]| && NeedsUpdate(records[1..][i], filter, local, digest) == Failure(e);
    assert records[i + 1] == records[1..][i];
  }

  /** A second run against an unchanged manifest downloads nothing: once every file matches
      its size and digest, no record is selected. */
  lemma {:induction false} SecondRunSelectsNothing(records: seq<FileInfo>, filter: Option<string -> bool>,
                                                   local: string -> LocalFile, digest: seq<Octet> -> seq<JByte>)
    requires forall i :: 0 <= i < |records| ==> UpToDate(records[i], local, digest)
    ensures SelectForUpdate(records, filter, local, digest) == Success([])
    decreases |records|
  {
    if records != [] {
      assert UpToDate(records[0], local, digest);
      SecondRunSelectsNothing(records[1..], filter, local, digest);
    }
  }
}
