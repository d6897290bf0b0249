/** `Helper.getDownloadStream` and its segmented fallback `PartsInputStream`: the stream
    that concatenates the bodies of `path.z01`, `path.z02`, ... fetching each segment only
    when the previous one is used up. */
module Download {
  import opened Wrappers
  import opened Bytes
  import opened Decimal
  import opened Http
  import opened Helper

  /** The state of a `PartsInputStream`: the number of the last segment fetched (`part`),
      the unread rest of its body (`current`), and every segment URL requested so far. */
  datatype PartsInputStream = PartsInputStream(
    helper: Helper,
    path: string,
    part: nat,
    current: seq<Octet>,
    requested: seq<string>)

  function Prefix(st: PartsInputStream): string {
    SegmentPrefix(st.helper, st.path)
  }

  /** The URLs of segments 1 to `n`, in order. */
  function SegmentUrls(h: Helper, path: string, n: nat): (us: seq<string>)
    ensures |us| == n
    ensures forall k :: 0 <= k < n ==> us[k] == SegmentUrl(h, path, k + 1)
  {
    if n == 0 then [] else SegmentUrls(h, path, n - 1) + [SegmentUrl(h, path, n)]
  }

  /** Segments are requested one after another, from 1, one number at a time. */
  predicate Valid(st: PartsInputStream) {
    st.requested == SegmentUrls(st.helper, st.path, st.part)
  }

  /** `u` is the URL of a segment numbered above `part`. */
  predicate IsLaterSegment(u: string, prefix: string, part: nat) {
    && |prefix| < |u| && u[..|prefix|] == prefix
    && AllDigits(u[|prefix|..]) && DigitsValue(u[|prefix|..]) > part
  }

  /** The published segment URLs numbered above `part`: the termination measure of reading. */
  function Later(remote: Remote, prefix: string, part: nat): set<string> {
    set u | u in remote && IsLaterSegment(u, prefix, part)
  }

  /** Fetching a published segment leaves strictly fewer later segments to fetch. */
  lemma LaterShrinks(remote: Remote, h: Helper, path: string, part: nat)
    requires SegmentUrl(h, path, part + 1) in remote
    ensures |Later(remote, SegmentPrefix(h, path), part + 1)| < |Later(remote, SegmentPrefix(h, path), part)|
  {
    var prefix := SegmentPrefix(h, path);
    var u := SegmentUrl(h, path, part + 1);
    assert u in Later(remote, prefix, part);
    assert u !in Later(remote, prefix, part + 1);
    assert Later(remote, prefix, part + 1) <= Later(remote, prefix, part) - {u};
    SubsetCard(Later(remote, prefix, part + 1), Later(remote, prefix, part) - {u});
  }

  lemma {:induction false} SubsetCard<T>(a: set<T>, b: set<T>)
    requires a <= b
    ensures |a| <= |b|
    decreases |a|
  {
    if a != {} {
      var x :| x in a;
      SubsetCard(a - {x}, b - {x});
    }
  }

  /** The bytes of segments `part + 1`, `part + 2`, ... up to the first one that does not
      answer 200, and the `IOException` that one raises. */
  function Rest(remote: Remote, h: Helper, path: string, part: nat): (r: (seq<Octet>, IOError))
    ensures r.1 != ServerError(200)
    decreases |Later(remote, SegmentPrefix(h, path), part)|
  {
    var resp := Fetch(remote, SegmentUrl(h, path, part + 1));
    if IsOk(resp) then
      LaterShrinks(remote, h, path, part);
      var (bytes, err) := Rest(remote, h, path, part + 1);
      (resp.body + bytes, err)
    else ([], ErrorOf(resp))
  }

  /** Everything the stream can still deliver: the rest of the current segment followed by
      the later segments. */
  function Pending(st: PartsInputStream, remote: Remote): seq<Octet> {
    st.current + Rest(remote, st.helper, st.path, st.part).0
  }

  /** The `IOException` the stream raises once `Pending` is used up. */
  function PendingError(st: PartsInputStream, remote: Remote): IOError {
    Rest(remote, st.helper, st.path, st.part).1
  }

  /** `nextStream()`: request segment `part + 1`; a non-200 answer throws with its status. */
  function NextStream(st: PartsInputStream, remote: Remote): (r: Result<PartsInputStream, IOError>)
    ensures r.Success? <==> IsOk(Fetch(remote, SegmentUrl(st.helper, st.path, st.part + 1)))
    ensures r.Failure? ==> r.error == ErrorOf(Fetch(remote, SegmentUrl(st.helper, st.path, st.part + 1)))
    ensures r.Success? ==> && r.value.helper == st.helper && r.value.path == st.path
                           && r.value.part == st.part + 1
                           && r.value.current == Fetch(remote, SegmentUrl(st.helper, st.path, st.part + 1)).body
    ensures r.Success? && Valid(st) ==> Valid(r.value)
  {
    var n := st.part + 1;
    var url := SegmentUrl(st.helper, st.path, n);
    var resp := Fetch(remote, url);
    if IsOk(resp) then
      Success(st.(part := n, current := resp.body, requested := st.requested + [url]))
    else Failure(ErrorOf(resp))
  }

  /** Moving on to the next segment loses no bytes and keeps the final error. */
  lemma NextStreamKeepsPending(st: PartsInputStream, remote: Remote)
    requires st.current == [] && NextStream(st, remote).Success?
    ensures Pending(NextStream(st, remote).value, remote) == Pending(st, remote)
    ensures PendingError(NextStream(st, remote).value, remote) == PendingError(st, remote)
  {
    var next := NextStream(st, remote).value;
    var resp := Fetch(remote, SegmentUrl(st.helper, st.path, st.part + 1));
    assert IsOk(resp);
    var later := Rest(remote, st.helper, st.path, st.part + 1);
    assert Rest(remote, st.helper, st.path, st.part) == (resp.body + later.0, later.1);
    assert st.current + (resp.body + later.0) == resp.body + later.0;
  }

  /** A byte taken from the current segment is the first pending byte. */
  lemma TakeFromCurrent(st: PartsInputStream, remote: Remote)
    requires |st.current| > 0
    ensures Pending(st, remote)[0] == st.current[0]
    ensures Pending(st.(current := st.current[1..]), remote) == Pending(st, remote)[1..]
    ensures PendingError(st.(current := st.current[1..]), remote) == PendingError(st, remote)
  {
    var rest := Rest(remote, st.helper, st.path, st.part).0;
    assert (st.current + rest)[1..] == st.current[1..] + rest;
  }

  /** With the current segment used up, a failing fetch means nothing is pending and the
      error raised is the stream's final error. */
  lemma NextStreamFailsAtEnd(st: PartsInputStream, remote: Remote)
    requires st.current == [] && NextStream(st, remote).Failure?
    ensures Pending(st, remote) == []
    ensures NextStream(st, remote).error == PendingError(st, remote)
  {
    var resp := Fetch(remote, SegmentUrl(st.helper, st.path, st.part + 1));
    assert !IsOk(resp);
    assert Rest(remote, st.helper, st.path, st.part) == ([], ErrorOf(resp));
  }

  /** The constructor: only segment 1 is fetched eagerly. */
  function Open(h: Helper, path: string, remote: Remote): (r: Result<PartsInputStream, IOError>)
    ensures r.Success? <==> IsOk(Fetch(remote, SegmentUrl(h, path, 1)))
    ensures r.Failure? ==> r.error == ErrorOf(Fetch(remote, SegmentUrl(h, path, 1)))
    ensures r.Success? ==> && Valid(r.value) && r.value.requested == [SegmentUrl(h, path, 1)]
                           && r.value.helper == h && r.value.path == path
                           && Pending(r.value, remote) == Rest(remote, h, path, 0).0
                           && PendingError(r.value, remote) == Rest(remote, h, path, 0).1
  {
    NextStream(PartsInputStream(h, path, 0, [], []), remote)
  }

  /** Segments `from + 1` to `to - 1` all answered 200 with an empty body. */
  predicate SkippedEmpty(remote: Remote, h: Helper, path: string, from: nat, to: nat) {
    forall k: nat :: from < k < to ==> Fetch(remote, SegmentUrl(h, path, k)) == Response(200, [])
  }

  /** `read()`: the next byte of the current segment; when it is used up, the next segment
      is fetched and reading continues there, so empty segments are passed over. It never
      answers -1: running out of segments ends in the `IOException` of the first segment
      that does not answer 200 (404 once past the last published one). The reader is lazy:
      while the current segment has bytes nothing is fetched, and otherwise it stops at the
      first later segment with a byte to give, every segment passed over being empty. */
  function Read(st: PartsInputStream, remote: Remote): (r: Result<(Octet, PartsInputStream), IOError>)
    ensures r.Success? <==> |Pending(st, remote)| > 0
    ensures r.Success? ==> && r.value.0 == Pending(st, remote)[0]
                           && Pending(r.value.1, remote) == Pending(st, remote)[1..]
    ensures r.Success? ==> r.value.1.helper == st.helper && r.value.1.path == st.path
    ensures r.Success? ==> PendingError(r.value.1, remote) == PendingError(st, remote)
    ensures r.Success? && Valid(st) ==> Valid(r.value.1)
    ensures r.Failure? ==> r.error == PendingError(st, remote)
    ensures |st.current| > 0 ==> r == Success((st.current[0], st.(current := st.current[1..])))
    ensures r.Success? && st.current == [] ==>
      && r.value.1.part > st.part
      && SkippedEmpty(remote, st.helper, st.path, st.part, r.value.1.part)
      && Fetch(remote, SegmentUrl(st.helper, st.path, r.value.1.part))
         == Response(200, [r.value.0] + r.value.1.current)
    decreases |Later(remote, Prefix(st), st.part)|
  {
    if |st.current| > 0 then
      TakeFromCurrent(st, remote);
      Success((st.current[0], st.(current := st.current[1..])))
    else
      match NextStream(st, remote)
      case Failure(e) =>
        NextStreamFailsAtEnd(st, remote);
        Failure(e)
      case Success(next) =>
        LaterShrinks(remote, st.helper, st.path, st.part);
        NextStreamKeepsPending(st, remote);
        var r := Read(next, remote);
        ReadPassesOver(st, next, remote, r);
        r
  }

  /** Reading on from a freshly fetched segment: either its first byte is taken, or, when it
      is empty, the segments passed over grow by this one. */
  lemma ReadPassesOver(st: PartsInputStream, next: PartsInputStream, remote: Remote,
                       r: Result<(Octet, PartsInputStream), IOError>)
    requires st.current == [] && NextStream(st, remote) == Success(next)
    requires |next.current| > 0 ==> r == Success((next.current[0], next.(current := next.current[1..])))
    requires r.Success? && next.current == [] ==>
      && r.value.1.part > next.part
      && SkippedEmpty(remote, next.helper, next.path, next.part, r.value.1.part)
      && Fetch(remote, SegmentUrl(next.helper, next.path, r.value.1.part))
         == Response(200, [r.value.0] + r.value.1.current)
    ensures r.Success? ==>
      && r.value.1.part > st.part
      && SkippedEmpty(remote, st.helper, st.path, st.part, r.value.1.part)
      && Fetch(remote, SegmentUrl(st.helper, st.path, r.value.1.part))
         == Response(200, [r.value.0] + r.value.1.current)
  {
    var resp := Fetch(remote, SegmentUrl(st.helper, st.path, st.part + 1));
    assert next.part == st.part + 1 && next.current == resp.body && next.helper == st.helper
           && next.path == st.path;
    assert resp == Response(200, next.current);
    if r.Success? {
      var to := r.value.1.part;
      if next.current != [] {
        assert next.current == [r.value.0] + r.value.1.current;
      } else {
        forall k: nat | st.part < k < to
          ensures Fetch(remote, SegmentUrl(st.helper, st.path, k)) == Response(200, [])
        {
          if k > st.part + 1 {
            assert next.part < k < to;
          }
        }
      }
    }
  }

  /** `n` successive `read()` calls. */
  function ReadN(st: PartsInputStream, remote: Remote, n: nat): (r: Result<(seq<Octet>, PartsInputStream), IOError>)
    ensures r.Success? <==> n <= |Pending(st, remote)|
    ensures r.Success? ==> && r.value.0 == Pending(st, remote)[..n]
                           && Pending(r.value.1, remote) == Pending(st, remote)[n..]
    ensures r.Success? ==> PendingError(r.value.1, remote) == PendingError(st, remote)
    ensures r.Failure? ==> r.error == PendingError(st, remote)
    ensures r.Success? && Valid(st) ==> Valid(r.value.1)
    decreases n
  {
    if n == 0 then Success(([], st))
    else
      match Read(st, remote)
      case Failure(e) => Failure(e)
      case Success((b, next)) =>
        SliceAfterHead(Pending(st, remote), n);
        match ReadN(next, remote, n - 1)
        case Failure(e) => Failure(e)
        case Success((bytes, last)) => Success(([b] + bytes, last))
  }

  lemma SliceAfterHead<T>(s: seq<T>, n: nat)
    requires 1 <= n && |s| >= 1
    ensures n <= |s| ==> [s[0]] + s[1..][..n - 1] == s[..n] && s[1..][n - 1..] == s[n..]
  {
  }

  /** The stream `getDownloadStream` returns: the whole package's body, or the segments. */
  datatype DownloadStream = Direct(body: seq<Octet>) | Segmented(parts: PartsInputStream)

  /** `getDownloadStream(path)`: normalise the path, probe `path.zip`; on 200 hand back its
      body, on any other status fall back to the segments (fetching segment 1 at once). */
  function GetDownloadStream(h: Helper, path: string, remote: Remote): (r: Result<DownloadStream, IOError>)
    ensures var whole := Fetch(remote, DownloadUrl(h, NormalizePath(path)));
      r.Success? && r.value.Direct? <==> IsOk(whole)
    ensures var whole := Fetch(remote, DownloadUrl(h, NormalizePath(path)));
      IsOk(whole) ==> r == Success(Direct(whole.body))
    ensures var whole := Fetch(remote, DownloadUrl(h, NormalizePath(path)));
      whole.Unreachable? ==> r == Failure(ConnectionFailed)
    ensures var whole := Fetch(remote, DownloadUrl(h, NormalizePath(path)));
      whole.Response? && whole.status != 200 ==>
        (r.Success? <==> IsOk(Fetch(remote, SegmentUrl(h, NormalizePath(path), 1))))
    ensures var whole := Fetch(remote, DownloadUrl(h, NormalizePath(path)));
      r.Failure? && whole.Response? ==> r.error == ErrorOf(Fetch(remote, SegmentUrl(h, NormalizePath(path), 1)))
    ensures r.Success? && r.value.Segmented? ==>
      && r.value.parts.path == NormalizePath(path) && NoBackslash(r.value.parts.path)
      && Valid(r.value.parts) && r.value.parts.requested == [SegmentUrl(h, NormalizePath(path), 1)]
      && Pending(r.value.parts, remote) == Rest(remote, h, NormalizePath(path), 0).0
  {
    var p := NormalizePath(path);
    match Fetch(remote, DownloadUrl(h, p))
    case Unreachable => Failure(ConnectionFailed)
    case Response(status, body) =>
      if status == 200 then Success(Direct(body))
      else
        match Open(h, p, remote)
        case Failure(e) => Failure(e)
        case Success(parts) => Success(Segmented(parts))
  }

  /** `read()` on either kind of stream. Only the direct stream ever answers -1. */
  function ReadByte(s: DownloadStream, remote: Remote): (r: Result<(int, DownloadStream), IOError>)
    ensures r.Success? && r.value.0 == -1 ==> s.Direct? && s.body == []
    ensures r.Success? && r.value.0 != -1 ==> 0 <= r.value.0 < 256
    ensures s.Direct? && s.body == [] ==> r == Success((-1, s))
    ensures s.Direct? && s.body != [] ==> r == Success((s.body[0] as int, Direct(s.body[1..])))
    ensures s.Segmented? ==> (r.Success? <==> |Pending(s.parts, remote)| > 0)
    ensures s.Segmented? && r.Success? ==>
      && r.value.0 == Pending(s.parts, remote)[0] as int && r.value.1.Segmented?
      && Pending(r.value.1.parts, remote) == Pending(s.parts, remote)[1..]
    ensures s.Segmented? && r.Failure? ==> r.error == PendingError(s.parts, remote)
  {
    match s
    case Direct(body) =>
      var eof: int := -1;
      if body == [] then Success((eof, s)) else Success((body[0] as int, Direct(body[1..])))
    case Segmented(parts) =>
      match Read(parts, remote)
      case Failure(e) => Failure(e)
      case Success((b, next)) => Success((b, Segmented(next)))
  }

  /** A segmented stream delivers exactly the concatenated segment bodies and then fails:
      reading one byte more than they hold raises the status of the first missing segment. */
  lemma SegmentedReadsConcatenation(h: Helper, path: string, remote: Remote)
    requires IsOk(Fetch(remote, SegmentUrl(h, path, 1)))
    ensures var all := Rest(remote, h, path, 0);
      && ReadN(Open(h, path, remote).value, remote, |all.0|).Success?
      && ReadN(Open(h, path, remote).value, remote, |all.0|).value.0 == all.0
      && Read(ReadN(Open(h, path, remote).value, remote, |all.0|).value.1, remote) == Failure(all.1)
  {
    var st := Open(h, path, remote).value;
    var all := Rest(remote, h, path, 0);
    var r := ReadN(st, remote, |all.0|);
    assert Pending(r.value.1, remote) == [];
  }
}
