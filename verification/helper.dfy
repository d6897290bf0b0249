/** `Helper`: the URL conventions of the patch server for one (host, game, version). */
module Helper {
  import opened Wrappers
  import opened Bytes
  import opened Decimal
  import opened Http

  /** The remote patch tree a run works against; immutable once built. */
  datatype Helper = Helper(host: string, game: string, version: Int32) {

    /** `getBaseUrl()`: `http://host/game/version/Patch`. */
    function BaseUrl(): (url: string)
      ensures |url| >= 7 && url[..7] == "http://"
      ensures |url| >= 6 && url[|url| - 6..] == "/Patch"
      ensures |url| > |this.host| + 8 && url[7..|this.host| + 8] == this.host + "/"
    {
      "http://" + host + "/" + game + "/" + IntToString(version) + "/Patch"
    }

    /** `getFileInfoMapZipUrl()`: the manifest archive under the base URL. */
    function FileInfoMapZipUrl(): (url: string)
      ensures |url| > |BaseUrl()| + 13
      ensures url[..|BaseUrl()| + 13] == BaseUrl() + "/FileInfoMap_"
      ensures url[|url| - 8..] == ".dat.zip"
    {
      BaseUrl() + "/FileInfoMap_" + game + "_" + IntToString(version) + ".dat.zip"
    }

    /** `getTorrentZipUrl()`: the full-client torrent archive under the base URL. */
    function TorrentZipUrl(): (url: string)
      ensures |url| > |BaseUrl()| + 6
      ensures url[..|BaseUrl()| + 6] == BaseUrl() + "/Full_"
      ensures url[|url| - 12..] == ".torrent.zip"
    {
      BaseUrl() + "/Full_" + game + "_" + IntToString(version) + ".torrent.zip"
    }
  }

  /** `isAvailable()`: the version exists when its manifest URL answers 200; a failed
      connection throws. */
  function IsAvailable(h: Helper, remote: Remote): (r: Result<bool, IOError>)
    ensures r == Success(true) <==> IsOk(Fetch(remote, h.FileInfoMapZipUrl()))
    ensures r.Failure? <==> Fetch(remote, h.FileInfoMapZipUrl()).Unreachable?
  {
    match Fetch(remote, h.FileInfoMapZipUrl())
    case Unreachable => Failure(ConnectionFailed)
    case Response(status, _) => Success(status == 200)
  }

  /** `path.replaceAll("\\\\", "/")`: every backslash becomes a forward slash. */
  function NormalizePath(path: string): (p: string)
    ensures |p| == |path|
    ensures NoBackslash(p)
    ensures forall i :: 0 <= i < |p| ==> path[i] != '\\' ==> p[i] == path[i]
    ensures forall i :: 0 <= i < |p| ==> path[i] == '\\' ==> p[i] == '/'
  {
    if path == [] then []
    else [if path[0] == '\\' then '/' else path[0]] + NormalizePath(path[1..])
  }

  /** The whole-file package of a (normalised) path: `base/Zip/path.zip`. */
  function DownloadUrl(h: Helper, path: string): (url: string)
    ensures |url| == |h.BaseUrl()| + |path| + 9
    ensures url[..|h.BaseUrl()| + 5] == h.BaseUrl() + "/Zip/"
    ensures url[|h.BaseUrl()| + 5..|url| - 4] == path
    ensures url[|url| - 4..] == ".zip"
  {
    h.BaseUrl() + "/Zip/" + path + ".zip"
  }

  /** Everything of a segment URL but its number: `base/Zip/path.z`. */
  function SegmentPrefix(h: Helper, path: string): string {
    h.BaseUrl() + "/Zip/" + path + ".z"
  }

  /** Segment `n` of a (normalised) path: `base/Zip/path.zNN`, at least two digits. */
  function SegmentUrl(h: Helper, path: string, n: nat): (url: string)
    ensures |url| >= |SegmentPrefix(h, path)| + 2
    ensures url[..|SegmentPrefix(h, path)|] == SegmentPrefix(h, path)
    ensures AllDigits(url[|SegmentPrefix(h, path)|..])
    ensures DigitsValue(url[|SegmentPrefix(h, path)|..]) == n
    ensures n < 10 <==> |url| == |SegmentPrefix(h, path)| + 2 && url[|SegmentPrefix(h, path)|] == '0'
    ensures n >= 10 ==> url[|SegmentPrefix(h, path)|] != '0'
  {
    var url := SegmentPrefix(h, path) + Pad2(n);
    assert url[|SegmentPrefix(h, path)|..] == Pad2(n);
    Pad2Value(n);
    url
  }

  /** Normalising twice changes nothing more. */
  lemma NormalizePathIdempotent(path: string)
    ensures NormalizePath(NormalizePath(path)) == NormalizePath(path)
  {
    var p := NormalizePath(path);
    var q := NormalizePath(p);
    assert forall i :: 0 <= i < |q| ==> q[i] == p[i];
  }

  /** Two versions of the same game on the same host never share a patch tree. */
  lemma DistinctVersionsDistinctBaseUrls(h: Helper, version: Int32)
    requires version != h.version
    ensures h.(version := version).BaseUrl() != h.BaseUrl()
  {
    var g := h.(version := version);
    var prefix := "http://" + h.host + "/" + h.game + "/";
    var a := IntToString(h.version);
    var b := IntToString(version);
    assert h.BaseUrl() == prefix + a + "/Patch";
    assert g.BaseUrl() == prefix + b + "/Patch";
    if h.BaseUrl() == g.BaseUrl() {
      assert |a| == |b|;
      assert a == h.BaseUrl()[|prefix|..|prefix| + |a|];
      assert b == g.BaseUrl()[|prefix|..|prefix| + |b|];
      IntToStringInjective(h.version, version);
    }
  }

  /** A string built as `p + a + m + a + x` determines its fill `a`. */
  lemma SameShapeSameFill(p: string, a: string, b: string, m: string, x: string)
    requires p + a + m + a + x == p + b + m + b + x
    ensures a == b
  {
    var u := p + a + m + a + x;
    assert |a| == |b|;
    assert u[|p|..|p| + |a|] == a;
    assert (p + b + m + b + x)[|p|..|p| + |b|] == b;
  }

  /** The manifest URL with its two copies of the version laid bare. */
  lemma ManifestUrlShape(h: Helper)
    ensures h.FileInfoMapZipUrl()
            == ("http://" + h.host + "/" + h.game + "/") + IntToString(h.version)
               + ("/Patch/FileInfoMap_" + h.game + "_") + IntToString(h.version) + ".dat.zip"
  {
  }

  /** The torrent URL with its two copies of the version laid bare. */
  lemma TorrentUrlShape(h: Helper)
    ensures h.TorrentZipUrl()
            == ("http://" + h.host + "/" + h.game + "/") + IntToString(h.version)
               + ("/Patch/Full_" + h.game + "_") + IntToString(h.version) + ".torrent.zip"
  {
  }

  /** Two versions of a game on one host never share a manifest URL. */
  lemma DistinctVersionsDistinctManifestUrls(h: Helper, version: Int32)
    requires version != h.version
    ensures h.(version := version).FileInfoMapZipUrl() != h.FileInfoMapZipUrl()
  {
    var g := h.(version := version);
    if h.FileInfoMapZipUrl() == g.FileInfoMapZipUrl() {
      ManifestUrlShape(h);
      ManifestUrlShape(g);
      SameShapeSameFill("http://" + h.host + "/" + h.game + "/", IntToString(h.version), IntToString(version),
                        "/Patch/FileInfoMap_" + h.game + "_", ".dat.zip");
      IntToStringInjective(h.version, version);
    }
  }

  /** Two versions of a game on one host never share a torrent URL. */
  lemma DistinctVersionsDistinctTorrentUrls(h: Helper, version: Int32)
    requires version != h.version
    ensures h.(version := version).TorrentZipUrl() != h.TorrentZipUrl()
  {
    var g := h.(version := version);
    if h.TorrentZipUrl() == g.TorrentZipUrl() {
      TorrentUrlShape(h);
      TorrentUrlShape(g);
      SameShapeSameFill("http://" + h.host + "/" + h.game + "/", IntToString(h.version), IntToString(version),
                        "/Patch/Full_" + h.game + "_", ".torrent.zip");
      IntToStringInjective(h.version, version);
    }
  }

  /** The whole-package URL is never mistaken for a segment URL: it ends in a letter, every
      segment URL in a digit. */
  lemma DownloadUrlIsNoSegmentUrl(h: Helper, path: string, n: nat)
    ensures DownloadUrl(h, path) != SegmentUrl(h, path, n)
  {
    var d := DownloadUrl(h, path);
    var s := SegmentUrl(h, path, n);
    var k := |SegmentPrefix(h, path)|;
    assert d[|d| - 1] == 'p';
    assert s[|s| - 1] == s[k..][|s| - 1 - k];
    assert IsDigit(s[|s| - 1]);
  }

  /** Distinct segment numbers address distinct URLs. */
  lemma SegmentUrlInjective(h: Helper, path: string, n: nat, m: nat)
    requires SegmentUrl(h, path, n) == SegmentUrl(h, path, m)
    ensures n == m
  {
  }

  predicate NoBackslash(s: string) {
    forall i :: 0 <= i < |s| ==> s[i] != '\\'
  }

  lemma NoBackslashAppend(a: string, b: string)
    requires NoBackslash(a) && NoBackslash(b)
    ensures NoBackslash(a + b)
  {
    forall i | 0 <= i < |a + b|
      ensures (a + b)[i] != '\\'
    {
      if i >= |a| {
        assert (a + b)[i] == b[i - |a|];
      }
    }
  }

  lemma NoBackslashInDigits(d: string)
    requires AllDigits(d)
    ensures NoBackslash(d)
  {
  }

  lemma NoBackslashInBaseUrl(h: Helper)
    requires NoBackslash(h.host) && NoBackslash(h.game)
    ensures NoBackslash(h.BaseUrl())
  {
    var v := IntToString(h.version);
    assert NoBackslash(v) by {
      if h.version < 0 {
        assert v == "-" + v[1..];
        NoBackslashInDigits(v[1..]);
        NoBackslashAppend("-", v[1..]);
      } else {
        NoBackslashInDigits(v);
      }
    }
    NoBackslashAppend("http://", h.host);
    NoBackslashAppend("http://" + h.host, "/");
    NoBackslashAppend("http://" + h.host + "/", h.game);
    NoBackslashAppend("http://" + h.host + "/" + h.game, "/");
    NoBackslashAppend("http://" + h.host + "/" + h.game + "/", v);
    NoBackslashAppend("http://" + h.host + "/" + h.game + "/" + v, "/Patch");
  }

  /** Every URL built for a file path is free of backslashes, provided host and game are. */
  lemma NoBackslashInFileUrls(h: Helper, path: string, n: nat)
    requires NoBackslash(h.host) && NoBackslash(h.game)
    ensures NoBackslash(DownloadUrl(h, NormalizePath(path)))
    ensures NoBackslash(SegmentUrl(h, NormalizePath(path), n))
  {
    var p := NormalizePath(path);
    var base := h.BaseUrl();
    NoBackslashInBaseUrl(h);
    NoBackslashAppend(base, "/Zip/");
    NoBackslashAppend(base + "/Zip/", p);
    NoBackslashAppend(base + "/Zip/" + p, ".zip");
    NoBackslashAppend(base + "/Zip/" + p, ".z");
    var d := Pad2(n);
    NoBackslashInDigits(d);
    NoBackslashAppend(SegmentPrefix(h, p), d);
  }
}
