/** The manifest record `FileInfo` and its one-line text form `path:size:hash:0`. */
module FileInfos {
  import opened Wrappers
  import opened Bytes
  import opened Decimal
  import opened Tokenizer

  /** One manifest entry. The datatype's destructors are the Java getters: they return
      the constructor arguments unchanged. */
  datatype FileInfo = FileInfo(path: string, size: Int32, hash: string)

  /** Why `FileInfo.parse` throws: `nextToken()` ran out of tokens, or the size token
      is not a Java `int`. */
  datatype ParseError = NoSuchElement | NumberFormat(token: string, why: NumberError)

  /** A record whose text form reads back as itself: path and hash are single tokens. */
  predicate WellFormed(fi: FileInfo) {
    IsToken(fi.path) && IsToken(fi.hash)
  }

  /** `FileInfo.toString()`: `String.format("%s:%d:%s:0", path, size, hash)`. */
  function ToString(fi: FileInfo): (line: string)
    ensures |line| >= |fi.path| + |fi.hash| + 5
    ensures line[|line| - 2..] == [Sep, '0']
    ensures line[..|fi.path| + 1] == fi.path + [Sep]
  {
    fi.path + [Sep] + IntToString(fi.size) + [Sep] + fi.hash + [Sep, '0']
  }

  /** `FileInfo.parse(line)`. Java evaluates the constructor arguments left to right, so
      the first two `nextToken()` calls come before `Integer.parseInt`, and the third
      after it. Tokens after the third are never read. */
  function Parse(line: string): (r: Result<FileInfo, ParseError>)
    ensures var ts := Tokens(line);
      r.Success? <==> |ts| >= 3 && ParseInt(ts[1]).Success?
    ensures var ts := Tokens(line);
      r.Success? ==> && r.value.path == ts[0] && r.value.hash == ts[2]
                     && r.value.size == SignedValue(ts[1]) && WellFormed(r.value)
    ensures var ts := Tokens(line);
      r == Failure(NoSuchElement) <==> |ts| < 2 || (|ts| == 2 && ParseInt(ts[1]).Success?)
    ensures var ts := Tokens(line);
      r.Failure? && r.error.NumberFormat? ==> |ts| >= 2 && r.error.token == ts[1]
  {
    var ts := Tokens(line);
    if |ts| < 2 then Failure(NoSuchElement)
    else
      match ParseInt(ts[1])
      case Failure(why) => Failure(NumberFormat(ts[1], why))
      case Success(size) =>
        if |ts| < 3 then Failure(NoSuchElement) else Success(FileInfo(ts[0], size, ts[2]))
  }

  /** The rendered line has exactly four ':'-separated fields: path, decimal size, hash, "0". */
  lemma ToStringFields(fi: FileInfo)
    requires NoSep(fi.path) && NoSep(fi.hash)
    ensures Fields(ToString(fi)) == [fi.path, IntToString(fi.size), fi.hash, "0"]
  {
    var sz := IntToString(fi.size);
    assert NoSep(sz);
    var line := ToString(fi);
    assert line == fi.path + [Sep] + (sz + [Sep] + (fi.hash + [Sep] + "0"));
    FieldsSplit(fi.path, sz + [Sep] + (fi.hash + [Sep] + "0"));
    FieldsSplit(sz, fi.hash + [Sep] + "0");
    FieldsSplit(fi.hash, "0");
    FieldsOfNoSep(fi.path);
    FieldsOfNoSep(sz);
    FieldsOfNoSep(fi.hash);
    FieldsOfNoSep("0");
  }

  /** Round trip: `parse(toString(fi))` rebuilds `fi` for every Java `int` size, whenever
      path and hash are non-empty and free of ':'. The hash is not inspected at all. */
  lemma ParseToString(fi: FileInfo)
    requires WellFormed(fi)
    ensures Parse(ToString(fi)) == Success(fi)
  {
    ToStringFields(fi);
    var sz := IntToString(fi.size);
    assert Tokens(ToString(fi)) == NonEmpty([fi.path, sz, fi.hash, "0"]);
    NonEmptyOfNonEmpty([fi.path, sz, fi.hash, "0"]);
    ParseIntOfIntToString(fi.size);
  }

  /** Only the first three tokens matter: anything after them, the trailing "0" included,
      is ignored. */
  lemma ParseIgnoresLaterTokens(line: string, rest: string)
    requires |Tokens(line)| >= 3
    ensures Parse(line + [Sep] + rest) == Parse(line)
  {
    TokensSplit(line, rest);
    var ts := Tokens(line + [Sep] + rest);
    assert ts[..3] == Tokens(line)[..3];
  }

  /** An empty field does not yield "": `StringTokenizer` skips it and the later fields
      move one place to the left. */
  lemma ParseCollapsesEmptyField(x: string, y: string)
    ensures Parse(x + [Sep, Sep] + y) == Parse(x + [Sep] + y)
  {
    DoubledSepCollapses(x, y);
  }

  /** With the path left empty, the size takes the path's place and the hash is parsed as
      the size: a hash that is not a Java `int` (any real digest) makes the parse fail with
      that hash's own `NumberFormatException`. */
  lemma EmptyPathShiftsFields(size: string, hash: string)
    requires IsToken(size) && IsToken(hash) && ParseInt(hash).Failure?
    ensures Parse([Sep] + size + [Sep] + hash + [Sep, '0'])
         == Failure(NumberFormat(hash, ParseInt(hash).error))
  {
    var line := [Sep] + size + [Sep] + hash + [Sep, '0'];
    LeadingSepTokens(size, hash);
    var ts := Tokens(line);
    assert ts[1] == hash;
  }

  lemma LeadingSepTokens(size: string, hash: string)
    requires IsToken(size) && IsToken(hash)
    ensures Tokens([Sep] + size + [Sep] + hash + [Sep, '0']) == [size, hash, "0"]
  {
    var tail := size + [Sep] + (hash + [Sep] + "0");
    assert [Sep] + size + [Sep] + hash + [Sep, '0'] == [] + [Sep] + tail;
    FieldsSplit([], tail);
    FieldsSplit(size, hash + [Sep] + "0");
    FieldsSplit(hash, "0");
    FieldsOfNoSep(size);
    FieldsOfNoSep(hash);
    FieldsOfNoSep("0");
    var fs := [[], size, hash, "0"];
    assert Fields([] + [Sep] + tail) == fs;
    assert fs[1..] == [size, hash, "0"];
    NonEmptyOfNonEmpty(fs[1..]);
  }
}
