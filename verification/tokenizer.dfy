/** `java.util.StringTokenizer` with the single delimiter ':' and delimiters not returned:
    the tokens of a line are its maximal non-empty runs of non-':' characters, so
    consecutive, leading and trailing delimiters produce no empty tokens. */
module Tokenizer {

  const Sep: char := ':'

  predicate NoSep(s: string) {
    forall i :: 0 <= i < |s| ==> s[i] != Sep
  }

  /** A token as `StringTokenizer` can return it: non-empty and delimiter-free. */
  predicate IsToken(t: string) {
    |t| >= 1 && NoSep(t)
  }

  /** The ':'-separated fields of `s`, empty ones included; there is always at least one. */
  function Fields(s: string): (fs: seq<string>)
    ensures |fs| >= 1
    ensures forall k :: 0 <= k < |fs| ==> NoSep(fs[k])
  {
    if s == [] then [[]]
    else
      var rest := Fields(s[1..]);
      if s[0] == Sep then [[]] + rest else [[s[0]] + rest[0]] + rest[1..]
  }

  /** The non-empty elements of `fs`, in order. */
  function NonEmpty(fs: seq<string>): (ts: seq<string>)
    ensures |ts| <= |fs|
    ensures forall k :: 0 <= k < |ts| ==> |ts[k]| >= 1
    ensures forall k :: 0 <= k < |ts| ==> ts[k] in fs
  {
    if fs == [] then []
    else if fs[0] == [] then NonEmpty(fs[1..])
    else [fs[0]] + NonEmpty(fs[1..])
  }

  lemma {:induction false} NonEmptyOfNonEmpty(fs: seq<string>)
    requires forall k :: 0 <= k < |fs| ==> |fs[k]| >= 1
    ensures NonEmpty(fs) == fs
    decreases |fs|
  {
    if fs != [] {
      NonEmptyOfNonEmpty(fs[1..]);
    }
  }

  /** The tokens successive `nextToken()` calls return, in order. */
  function Tokens(s: string): (ts: seq<string>)
    ensures forall k :: 0 <= k < |ts| ==> IsToken(ts[k])
  {
    NonEmpty(Fields(s))
  }

  /** The tokens written back with one ':' between neighbours. */
  function Join(ts: seq<string>): string
  {
    if ts == [] then [] else if |ts| == 1 then ts[0] else ts[0] + [Sep] + Join(ts[1..])
  }

  lemma {:induction false} NonEmptyAppend(a: seq<string>, b: seq<string>)
    ensures NonEmpty(a + b) == NonEmpty(a) + NonEmpty(b)
    decreases |a|
  {
    if a == [] {
      assert a + b == b;
    } else {
      assert (a + b)[0] == a[0];
      assert (a + b)[1..] == a[1..] + b;
      NonEmptyAppend(a[1..], b);
    }
  }

  /** Splitting at a delimiter: the fields on each side of it are kept apart. */
  lemma {:induction false} FieldsSplit(x: string, y: string)
    ensures Fields(x + [Sep] + y) == Fields(x) + Fields(y)
    decreases |x|
  {
    if x == [] {
      assert x + [Sep] + y == [Sep] + y;
      assert ([Sep] + y)[1..] == y;
    } else {
      var s := x + [Sep] + y;
      assert s[0] == x[0];
      assert s[1..] == x[1..] + [Sep] + y;
      FieldsSplit(x[1..], y);
    }
  }

  /** A delimiter in the middle of a line contributes nothing but a break between tokens. */
  lemma TokensSplit(x: string, y: string)
    ensures Tokens(x + [Sep] + y) == Tokens(x) + Tokens(y)
  {
    FieldsSplit(x, y);
    NonEmptyAppend(Fields(x), Fields(y));
  }

  /** A single token is read back as exactly itself. */
  lemma {:induction false} FieldsOfNoSep(t: string)
    requires NoSep(t)
    ensures Fields(t) == [t]
    decreases |t|
  {
    if t != [] {
      FieldsOfNoSep(t[1..]);
      assert [t[0]] + t[1..] == t;
    }
  }

  lemma TokensOfToken(t: string)
    requires IsToken(t)
    ensures Tokens(t) == [t]
  {
    FieldsOfNoSep(t);
  }

  /** Round trip: joining well-formed tokens with ':' and tokenizing gives them back. */
  lemma {:induction false} TokensOfJoin(ts: seq<string>)
    requires forall k :: 0 <= k < |ts| ==> IsToken(ts[k])
    ensures Tokens(Join(ts)) == ts
    decreases |ts|
  {
    if ts == [] {
    } else if |ts| == 1 {
      TokensOfToken(ts[0]);
    } else {
      TokensSplit(ts[0], Join(ts[1..]));
      TokensOfToken(ts[0]);
      TokensOfJoin(ts[1..]);
    }
  }

  /** Consecutive delimiters collapse: an empty field never becomes a token. */
  lemma DoubledSepCollapses(x: string, y: string)
    ensures Tokens(x + [Sep, Sep] + y) == Tokens(x + [Sep] + y)
  {
    assert x + [Sep, Sep] + y == x + [Sep] + ([Sep] + y);
    TokensSplit(x, [Sep] + y);
    assert [Sep] + y == [] + [Sep] + y;
    TokensSplit([], y);
    TokensSplit(x, y);
  }
}
