/** Character classes and string helpers shared by the grammars and the serializer.
    Strings are sequences of characters; the classes are the ASCII ones a
    case-insensitive PCRE pattern without the Unicode flag uses. */
module Text {

  predicate NoDup<T(==)>(s: seq<T>) {
    forall i, j | 0 <= i < j < |s| :: s[i] != s[j]
  }

  predicate IsDigit(c: char) { '0' <= c <= '9' }

  predicate IsAsciiLetter(c: char) { 'a' <= c <= 'z' || 'A' <= c <= 'Z' }

  predicate IsAsciiAlnum(c: char) { IsAsciiLetter(c) || IsDigit(c) }

  /** `[a-f\d]` under the case-insensitive flag. */
  predicate IsHex(c: char) { IsDigit(c) || 'a' <= c <= 'f' || 'A' <= c <= 'F' }

  predicate AllDigits(s: string) {
    forall i | 0 <= i < |s| :: IsDigit(s[i])
  }

  /** ASCII case folding; every other character is its own lower case. */
  function Lower(c: char): (r: char)
    ensures IsAsciiLetter(c) ==> 'a' <= r <= 'z'
    ensures !IsAsciiLetter(c) ==> r == c
  {
    if 'A' <= c <= 'Z' then (c as int + 32) as char else c
  }

  /** Case folding never turns a letter into a non-letter. */
  lemma LowerToPlain(x: char, y: char)
    requires !IsAsciiLetter(y) && Lower(x) == Lower(y)
    ensures x == y
  {
  }

  predicate EqualsIgnoreCase(a: string, b: string) {
    |a| == |b| && forall i | 0 <= i < |a| :: Lower(a[i]) == Lower(b[i])
  }

  predicate StartsWithIgnoreCase(s: string, prefix: string) {
    |prefix| <= |s| && EqualsIgnoreCase(s[..|prefix|], prefix)
  }

  /** Length of the longest prefix of `s` whose characters all satisfy `p`. */
  function Span(s: string, p: char -> bool): (n: nat)
    ensures n <= |s|
    ensures forall i | 0 <= i < n :: p(s[i])
    ensures n < |s| ==> !p(s[n])
  {
    if s == [] || !p(s[0]) then 0 else 1 + Span(s[1..], p)
  }

  /** A prefix of `p`-characters followed by a non-`p` character or the end is
      exactly what `Span` measures. */
  lemma {:induction false} SpanOfConcat(a: string, b: string, p: char -> bool)
    requires forall i | 0 <= i < |a| :: p(a[i])
    requires b == [] || !p(b[0])
    ensures Span(a + b, p) == |a|
  {
    if a != [] {
      assert (a + b)[0] == a[0];
      assert (a + b)[1..] == a[1..] + b;
      SpanOfConcat(a[1..], b, p);
    }
  }

  /** Index of the first occurrence of `c` in `s`, or `|s|` when there is none. */
  function IndexOf<T(==)>(s: seq<T>, c: T): (k: nat)
    ensures k <= |s|
    ensures forall i | 0 <= i < k :: s[i] != c
    ensures k < |s| ==> s[k] == c
  {
    if s == [] || s[0] == c then 0 else 1 + IndexOf(s[1..], c)
  }

  /** The first `c` is at `m` whenever `m` is its first position or the end. */
  lemma IndexOfAt<T>(s: seq<T>, m: nat, c: T)
    requires m <= |s| && forall i | 0 <= i < m :: s[i] != c
    requires m == |s| || s[m] == c
    ensures IndexOf(s, c) == m
  {
  }

  lemma {:induction false} IndexOfConcat<T>(a: seq<T>, b: seq<T>, c: T)
    requires forall i | 0 <= i < |a| :: a[i] != c
    requires b != [] && b[0] == c
    ensures IndexOf(a + b, c) == |a|
  {
    if a != [] {
      assert (a + b)[0] == a[0];
      assert (a + b)[1..] == a[1..] + b;
      IndexOfConcat(a[1..], b, c);
    }
  }

  /** Index of the first element of `s` that fails `ok`, or `|s|` when all pass. */
  function FirstFailure<T>(s: seq<T>, ok: T -> bool): (i: nat)
    ensures i <= |s|
    ensures forall j | 0 <= j < i :: ok(s[j])
    ensures i < |s| ==> !ok(s[i])
  {
    if s == [] || !ok(s[0]) then 0 else 1 + FirstFailure(s[1..], ok)
  }

  lemma ConcatAssoc<T>(x: seq<T>, y: seq<T>, z: seq<T>)
    ensures x + (y + z) == (x + y) + z
  {
  }

  lemma ConcatIndex<T>(a: seq<T>, b: seq<T>, i: nat)
    requires i < |a + b|
    ensures (a + b)[i] == if i < |a| then a[i] else b[i - |a|]
  {
  }

  /** A concatenation splits back into its two parts. */
  lemma SplitAt<T>(a: seq<T>, b: seq<T>, s: seq<T>)
    requires s == a + b
    ensures s[..|a|] == a && s[|a|..] == b
  {
  }

  /** `values` separated by `sep`, as PHP's implode does. */
  function Join(values: seq<string>, sep: string): (s: string)
    ensures |values| == 1 ==> s == values[0]
  {
    if |values| == 0 then ""
    else if |values| == 1 then values[0]
    else values[0] + sep + Join(values[1..], sep)
  }

  /** Joining one more value appends the separator and the value: with the
      one-value case this fixes `Join` completely. */
  lemma {:induction false} JoinSnoc(vs: seq<string>, v: string, sep: string)
    requires vs != []
    ensures Join(vs + [v], sep) == Join(vs, sep) + sep + v
    decreases |vs|
  {
    if |vs| == 1 {
      assert (vs + [v])[1..] == [v];
    } else {
      assert (vs + [v])[1..] == vs[1..] + [v];
      JoinSnoc(vs[1..], v, sep);
    }
  }
}
