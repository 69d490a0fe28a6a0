// Bytes and the few byte values JSON gives a meaning to.
module Base {
  type Byte = b: int | 0 <= b < 256
  type Bytes = seq<Byte>

  datatype Option<+T> = None | Some(value: T)

  const TAB: Byte := 0x09
  const LF: Byte := 0x0A
  const CR: Byte := 0x0D
  const SPACE: Byte := 0x20
  const QUOTE: Byte := 0x22
  const PLUS: Byte := 0x2B
  const COMMA: Byte := 0x2C
  const MINUS: Byte := 0x2D
  const DOT: Byte := 0x2E
  const SLASH: Byte := 0x2F
  const ZERO: Byte := 0x30
  const NINE: Byte := 0x39
  const COLON: Byte := 0x3A
  const LBRACKET: Byte := 0x5B
  const BACKSLASH: Byte := 0x5C
  const RBRACKET: Byte := 0x5D
  const LBRACE: Byte := 0x7B
  const RBRACE: Byte := 0x7D

  function Min(a: int, b: int): int {
    if a <= b then a else b
  }

  predicate IsWhitespace(b: Byte) {
    b == SPACE || b == LF || b == TAB || b == CR
  }

  predicate IsDigit(b: Byte) {
    ZERO <= b <= NINE
  }

  predicate AllWhitespace(s: Bytes) {
    forall i :: 0 <= i < |s| ==> IsWhitespace(s[i])
  }

  predicate AllDigits(s: Bytes) {
    forall i :: 0 <= i < |s| ==> IsDigit(s[i])
  }

  // Plain string content: neither a quote, nor a backslash, nor a control
  // character. Every byte of a multi-byte character is plain.
  predicate IsPlain(b: Byte) {
    b != QUOTE && b != BACKSLASH && b >= SPACE
  }

  predicate AllPlain(s: Bytes) {
    forall i :: 0 <= i < |s| ==> IsPlain(s[i])
  }

  lemma PlainMore(s: Bytes, start: nat, i: nat)
    requires start <= i < |s| && AllPlain(s[start..i]) && IsPlain(s[i])
    ensures AllPlain(s[start..i + 1])
  {
    assert s[start..i + 1] == s[start..i] + [s[i]];
  }

  lemma Assoc<T>(a: seq<T>, b: seq<T>, c: seq<T>)
    ensures (a + b) + c == a + (b + c)
  {
  }

  lemma Slices<T>(s: seq<T>, i: nat, n: nat, k: nat)
    requires i + n <= |s| && k <= n
    ensures s[i..i + n][..k] == s[i..i + k]
  {
  }

  lemma SliceTail<T>(s: seq<T>, i: nat, k: nat, n: nat)
    requires i + k <= |s| && n <= k
    ensures s[i..i + k][n..] == s[i + n..][..k - n]
  {
  }

  lemma Rest<T>(s: seq<T>, k: nat, n: nat)
    requires k <= n <= |s|
    ensures s[..n] == s[..k] + s[k..][..n - k] && s[n..] == s[k..][n - k..]
  {
  }

  lemma From<T>(s: seq<T>, i: nat, k: nat)
    requires i + k <= |s|
    ensures s[i..][..k] == s[i..i + k] && s[i..][k..] == s[i + k..]
  {
  }

  lemma Inside<T>(s: seq<T>, i: nat, j: nat, k: nat)
    requires i <= |s| && j <= k <= |s| - i
    ensures s[i..][j..k] == s[i + j..i + k]
  {
  }

  lemma Cut<T>(s: seq<T>, i: nat, k: nat)
    requires i + k <= |s|
    ensures s[i..] == s[i..i + k] + s[i + k..]
  {
  }

  lemma Within<T>(s: seq<T>, more: seq<T>, n: nat)
    requires n <= |s|
    ensures (s + more)[..n] == s[..n] && (s + more)[n..] == s[n..] + more
    ensures s[..n] + s[n..] == s
  {
  }

  lemma Split<T>(s: seq<T>, i: nat, j: nat, k: nat)
    requires i <= j <= k <= |s|
    ensures s[i..j] + s[j..k] == s[i..k]
  {
  }

  /** The readable part of the ring: its bytes, in one piece or, where the ring
      wraps, in two. */
  datatype Spans = Spans(bytes: Bytes, wrap: nat) {
    function Len(): nat {
      |bytes|
    }

    /** What is left, from `i`, of whichever piece holds `i`. */
    function SpanFrom(i: nat): (span: Bytes)
      requires i <= Len()
      ensures |span| <= Len() - i && (i < Len() ==> |span| > 0)
      ensures span == bytes[i..i + |span|]
    {
      if i < wrap then bytes[i..Min(wrap, Len())] else bytes[i..]
    }

    /** At most `max` bytes from `i` that lie in one piece. */
    function Slice(i: nat, max: nat): (slice: Bytes)
      requires i < Len() && max > 0
      ensures 0 < |slice| <= Min(max, Len() - i)
      ensures slice == bytes[i..i + |slice|]
    {
      var span := SpanFrom(i);
      span[..Min(|span|, max)]
    }

    /** The bytes `[i, j)` if they lie in one piece. */
    function Contiguous(i: nat, j: nat): (r: Option<Bytes>)
      requires i <= j <= Len()
      ensures r.Some? ==> r.value == bytes[i..j]
    {
      if j <= wrap || i >= wrap then Some(bytes[i..j]) else None
    }

    function Skip(n: nat): (rest: Spans)
      requires n <= Len()
      ensures rest.bytes == bytes[n..]
    {
      Spans(bytes[n..], if n < wrap then wrap - n else 0)
    }
  }
}
