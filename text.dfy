/**
 * Character classes of Python's `re` module as the patcher's patterns use
 * them, and the two scanning steps every pattern is built from: a maximal
 * run of `\s` characters and a maximal run of `.` characters.
 */
module Text {

  /** `\s` in a `str` pattern: exactly the characters for which `str.isspace()` holds. */
  predicate IsSpace(c: char)
  {
    ('\t' <= c <= '\r') || ('\U{1C}' <= c <= '\U{1F}') || c == ' ' || c == '\U{85}' || c == '\U{A0}'
    || c == '\U{1680}' || ('\U{2000}' <= c <= '\U{200A}') || c == '\U{2028}' || c == '\U{2029}'
    || c == '\U{202F}' || c == '\U{205F}' || c == '\U{3000}'
  }

  /** The character class `["']`. */
  predicate IsQuote(c: char)
  {
    c == '"' || c == '\''
  }

  /** Letters, digits and `_`: the characters of the variable names the patcher looks for. */
  predicate IsNameChar(c: char)
  {
    ('A' <= c <= 'Z') || ('a' <= c <= 'z') || ('0' <= c <= '9') || c == '_'
  }

  /** A name that is a literal when interpolated into a pattern, and that no `\s`, `=` or newline can continue. */
  predicate IsPlainName(name: string)
  {
    name != [] && forall k :: 0 <= k < |name| ==> IsNameChar(name[k])
  }

  lemma {:induction false} NameCharIsPlain(c: char)
    requires IsNameChar(c)
    ensures !IsSpace(c) && c != '=' && c != '\n' && !IsQuote(c)
  {
  }

  predicate StartsWith(s: string, w: string)
  {
    |w| <= |s| && s[..|w|] == w
  }

  /** Every character of `s[a..b]` is `\s`. */
  predicate AllSpace(s: string, a: int, b: int)
  {
    0 <= a <= b <= |s| && forall k :: a <= k < b ==> IsSpace(s[k])
  }

  /** Every character of `s[a..b]` matches `.`, i.e. none is a newline. */
  predicate NoNewline(s: string, a: int, b: int)
  {
    0 <= a <= b <= |s| && forall k :: a <= k < b ==> s[k] != '\n'
  }

  /** Where a greedy `\s*` that starts at position `a` of `s` stops. */
  function SkipSpaces(s: string, a: nat): (b: nat)
    requires a <= |s|
    ensures AllSpace(s, a, b)
    ensures b < |s| ==> !IsSpace(s[b])
    decreases |s| - a
  {
    if a < |s| && IsSpace(s[a]) then SkipSpaces(s, a + 1) else a
  }

  /** Where a greedy `.*` that starts at position `a` of `s` stops: at the first newline, or at the end. */
  function LineEnd(s: string, a: nat): (b: nat)
    requires a <= |s|
    ensures NoNewline(s, a, b)
    ensures b < |s| ==> s[b] == '\n'
    decreases |s| - a
  {
    if a < |s| && s[a] != '\n' then LineEnd(s, a + 1) else a
  }

  /** A greedy run is the longest run: every run of `\s` from `a` ends within `SkipSpaces(s, a)`. */
  lemma {:induction false} SkipSpacesIsLongest(s: string, a: nat, m: int)
    requires a <= |s| && AllSpace(s, a, m)
    ensures m <= SkipSpaces(s, a)
  {
  }

  /** A run of `\s` that a non-`\s` character stops is exactly what `SkipSpaces` finds. */
  lemma {:induction false} SkipSpacesStopsAt(s: string, a: nat, m: int)
    requires a <= |s| && AllSpace(s, a, m) && m < |s| && !IsSpace(s[m])
    ensures SkipSpaces(s, a) == m
  {
    SkipSpacesIsLongest(s, a, m);
  }

  /** `SkipSpaces` reads nothing past the character that stops it. */
  lemma {:induction false} SkipSpacesAgrees(s: string, u: string, a: nat, len: nat)
    requires a <= len <= |s| && len <= |u| && s[..len] == u[..len]
    requires SkipSpaces(s, a) < len
    ensures SkipSpaces(u, a) == SkipSpaces(s, a)
    decreases len - a
  {
    AgreeAt(s, u, len, a);
    if IsSpace(s[a]) {
      SkipSpacesAgrees(s, u, a + 1, len);
    }
  }

  /** `LineEnd` reads nothing past the newline that stops it. */
  lemma {:induction false} LineEndAgrees(s: string, u: string, a: nat, len: nat)
    requires a <= len <= |s| && len <= |u| && s[..len] == u[..len]
    requires LineEnd(s, a) < len
    ensures LineEnd(u, a) == LineEnd(s, a)
    decreases len - a
  {
    AgreeAt(s, u, len, a);
    if s[a] != '\n' {
      LineEndAgrees(s, u, a + 1, len);
    }
  }

  /** A run of non-newlines that a newline (or the end) stops is exactly what `LineEnd` finds. */
  lemma {:induction false} LineEndIs(s: string, a: nat, b: nat)
    requires NoNewline(s, a, b) && (b == |s| || s[b] == '\n')
    ensures LineEnd(s, a) == b
    decreases b - a
  {
    if a < b {
      LineEndIs(s, a + 1, b);
    }
  }

  // ---------------------------------------------------------------------
  // Sequence identities, stated once so that proofs about the patcher's
  // outputs can rewrite with them instead of comparing element by element
  // ---------------------------------------------------------------------

  lemma {:induction false} AppendAssoc<T>(a: seq<T>, b: seq<T>, c: seq<T>)
    ensures (a + b) + c == a + (b + c)
  {
  }

  lemma {:induction false} SuffixCons<T>(t: seq<T>, i: nat)
    requires i < |t|
    ensures t[i..] == [t[i]] + t[i + 1..]
  {
  }

  lemma {:induction false} SuffixSplit<T>(t: seq<T>, i: nat, e: nat)
    requires i <= e <= |t|
    ensures t[i..] == t[i..e] + t[e..]
  {
  }

  lemma {:induction false} SliceOfSuffix<T>(t: seq<T>, i: nat, m: nat)
    requires i <= m <= |t|
    ensures t[i..][..m - i] == t[i..m]
  {
  }

  lemma {:induction false} SliceCons<T>(t: seq<T>, i: nat, m: nat)
    requires i < m <= |t|
    ensures t[i..m] == [t[i]] + t[i + 1..m]
  {
  }

  /** Two sequences with a common prefix agree at every position inside it. */
  lemma {:induction false} AgreeAt<T>(s: seq<T>, u: seq<T>, len: nat, j: nat)
    requires j < len <= |s| && len <= |u| && s[..len] == u[..len]
    ensures s[j] == u[j]
  {
    assert s[j] == s[..len][j];
  }

  /** A common prefix also fixes every shorter prefix. */
  lemma {:induction false} AgreePrefix<T>(s: seq<T>, u: seq<T>, len: nat, n: nat)
    requires n <= len <= |s| && len <= |u| && s[..len] == u[..len]
    ensures s[..n] == u[..n]
  {
    PrefixOfPrefix(s, n, len);
    PrefixOfPrefix(u, n, len);
  }

  /** A common prefix also fixes every slice inside it. */
  lemma {:induction false} AgreeSlice<T>(s: seq<T>, u: seq<T>, len: nat, k: nat, e: nat)
    requires k <= e <= len <= |s| && len <= |u| && s[..len] == u[..len]
    ensures s[k..e] == u[k..e]
  {
    forall y | k <= y < e ensures s[y] == u[y] {
      AgreeAt(s, u, len, y);
    }
  }

  /** A common prefix also fixes every window inside it, read from the window's start. */
  lemma {:induction false} AgreeWindow<T>(s: seq<T>, u: seq<T>, len: nat, q: nat, l: nat)
    requires q + l <= len <= |s| && len <= |u| && s[..len] == u[..len]
    ensures s[q..][..l] == u[q..][..l]
  {
    AgreeSlice(s, u, len, q, q + l);
    SliceOfSuffix(s, q, q + l);
    SliceOfSuffix(u, q, q + l);
  }

  lemma {:induction false} SliceHead<T>(t: seq<T>, a: nat, b: nat)
    requires a < b <= |t|
    ensures t[a..b][0] == t[a]
  {
  }

  lemma {:induction false} SliceOfPrefix<T>(t: seq<T>, a: nat, b: nat, len: nat)
    requires a <= b <= len <= |t|
    ensures t[..len][a..b] == t[a..b]
  {
  }

  lemma {:induction false} PrefixOfPrefix<T>(t: seq<T>, n: nat, len: nat)
    requires n <= len <= |t|
    ensures t[..len][..n] == t[..n]
  {
  }

  lemma {:induction false} SliceSnoc<T>(t: seq<T>, i: nat, m: nat)
    requires i <= m < |t|
    ensures t[i..m + 1] == t[i..m] + [t[m]]
  {
  }

  lemma {:induction false} PrefixToNext<T>(a: seq<T>, b: seq<T>)
    requires b != []
    ensures (a + b)[..|a| + 1] == a + [b[0]]
  {
  }

  /** A text that keeps `s[..k]` and goes on with a text starting with `s[k]` agrees with `s` on `k + 1` elements. */
  lemma PrefixThroughNext<T>(s: seq<T>, k: nat, b: seq<T>, w: seq<T>)
    requires k < |s| && b != [] && b[0] == s[k] && w == s[..k] + b
    ensures w[..k + 1] == s[..k + 1]
  {
    PrefixToNext(s[..k], b);
    SliceSnoc(s, 0, k);
  }

  lemma {:induction false} TakeDrop<T>(t: seq<T>, k: nat)
    requires k <= |t|
    ensures t == t[..k] + t[k..]
  {
  }

  lemma {:induction false} TailAppend<T>(a: seq<T>, b: seq<T>)
    requires a != []
    ensures (a + b)[1..] == a[1..] + b && [a[0]] + a[1..] == a
  {
  }

  lemma {:induction false} DropDrop<T>(t: seq<T>, a: nat, w: nat)
    requires a + w <= |t|
    ensures t[a..][w..] == t[a + w..]
  {
  }

  lemma DropAppend<T>(a: seq<T>, b: seq<T>, x: nat)
    requires |a| <= x <= |a| + |b|
    ensures (a + b)[x..] == b[x - |a|..]
  {
  }

  lemma PrefixOfAppend<T>(a: seq<T>, b: seq<T>)
    ensures (a + b)[..|a|] == a
  {
  }
}
