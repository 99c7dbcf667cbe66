/** The handful of Python built-ins the two pages rely on: `str.isspace`
    (through `str.strip` and `str.split`), negative-start list slicing
    (`xs[-n:]`) and `reversed`. */
module Builtins {

  datatype Option<T> = None | Some(value: T)

  /** Python's `str.isspace` for one character: the Unicode characters of
      category Zs and of bidirectional class WS, B or S. */
  predicate IsWhitespace(c: char)
    ensures c == ' ' || c == '\t' || c == '\n' || c == '\r' ==> IsWhitespace(c)
    ensures 'a' <= c <= 'z' || 'A' <= c <= 'Z' || '0' <= c <= '9' ==> !IsWhitespace(c)
  {
    c == ' ' || c == '\t' || c == '\n' || c == '\r' || c == '\U{0B}' || c == '\U{0C}'
    || ('\U{1C}' <= c <= '\U{1F}') || c == '\U{85}' || c == '\U{A0}' || c == '\U{1680}'
    || ('\U{2000}' <= c <= '\U{200A}') || c == '\U{2028}' || c == '\U{2029}'
    || c == '\U{202F}' || c == '\U{205F}' || c == '\U{3000}'
  }

  /** Every character is whitespace (the empty string included). */
  predicate IsBlank(s: string) {
    forall i :: 0 <= i < |s| ==> IsWhitespace(s[i])
  }

  /** No character is whitespace. */
  predicate HasNoWhitespace(s: string) {
    forall i :: 0 <= i < |s| ==> !IsWhitespace(s[i])
  }

  /** `s.lstrip()`: the suffix of `s` left after dropping leading whitespace. */
  function TrimStart(s: string): (r: string)
    ensures |r| <= |s| && r == s[|s| - |r|..]
    ensures forall i :: 0 <= i < |s| - |r| ==> IsWhitespace(s[i])
    ensures r == [] || !IsWhitespace(r[0])
    ensures r == [] <==> IsBlank(s)
  {
    if s == [] || !IsWhitespace(s[0]) then s
    else
      var r := TrimStart(s[1..]);
      assert forall i :: 1 <= i < |s| ==> s[i] == s[1..][i - 1];
      r
  }

  /** `s.rstrip()`: the prefix of `s` left after dropping trailing whitespace. */
  function TrimEnd(s: string): (r: string)
    ensures |r| <= |s| && r == s[..|r|]
    ensures forall i :: |r| <= i < |s| ==> IsWhitespace(s[i])
    ensures r == [] || !IsWhitespace(r[|r| - 1])
    ensures r == [] <==> IsBlank(s)
  {
    if s == [] || !IsWhitespace(s[|s| - 1]) then s
    else
      var r := TrimEnd(s[..|s| - 1]);
      assert forall i :: 0 <= i < |s| - 1 ==> s[i] == s[..|s| - 1][i];
      r
  }

  /** `s.strip()`: what is left of `s` after dropping whitespace at both
      ends; it is empty for a blank text and otherwise begins and ends with a
      non-whitespace character. */
  function Strip(s: string): (r: string)
    ensures |r| <= |s|
    ensures r == [] <==> IsBlank(s)
    ensures r == [] || (!IsWhitespace(r[0]) && !IsWhitespace(r[|r| - 1]))
  {
    TrimEnd(TrimStart(s))
  }

  /** Length of the run of non-whitespace characters that `s` starts with. */
  function LeadingWordLength(s: string): (n: nat)
    ensures n <= |s| && HasNoWhitespace(s[..n])
    ensures n == |s| || IsWhitespace(s[n])
  {
    if s == [] || IsWhitespace(s[0]) then 0
    else
      var n := LeadingWordLength(s[1..]);
      assert s[..n + 1] == [s[0]] + s[1..][..n];
      n + 1
  }

  /** `s.split()` with no separator: the maximal runs of non-whitespace
      characters, in order; no word is empty and none holds whitespace. */
  function Words(s: string): (ws: seq<string>)
    ensures forall k :: 0 <= k < |ws| ==> ws[k] != [] && HasNoWhitespace(ws[k])
    decreases |s|
  {
    if s == [] then []
    else if IsWhitespace(s[0]) then Words(s[1..])
    else
      var n := LeadingWordLength(s);
      [s[..n]] + Words(s[n..])
  }

  /** A whitespace character in the middle of a text never lies inside a
      word, so it does not change where the leading word ends. */
  lemma {:induction false} LeadingWordLengthBeforeWhitespace(a: string, t: string)
    requires t != [] && IsWhitespace(t[0])
    ensures LeadingWordLength(a + t) == LeadingWordLength(a)
    decreases |a|
  {
    if a == [] {
      assert a + t == t;
    } else {
      assert (a + t)[0] == a[0] && (a + t)[1..] == a[1..] + t;
      LeadingWordLengthBeforeWhitespace(a[1..], t);
    }
  }

  /** A non-empty run of non-whitespace characters is one word. */
  lemma WordsOfWord(w: string)
    requires w != [] && HasNoWhitespace(w)
    ensures Words(w) == [w]
  {
    assert w[..|w|] == w && w[|w|..] == [];
  }

  /** `split()` cuts at every whitespace character: the words of a text with
      a whitespace character `c` in it are the words before `c` followed by
      the words after it. With WordsOfWord this fixes `split()` completely. */
  lemma {:induction false} WordsSplitAtWhitespace(a: string, c: char, b: string)
    requires IsWhitespace(c)
    ensures Words(a + [c] + b) == Words(a) + Words(b)
    decreases |a|
  {
    var s := a + [c] + b;
    if a == [] {
      assert s[0] == c && s[1..] == b;
    } else if IsWhitespace(a[0]) {
      assert s[0] == a[0] && s[1..] == a[1..] + [c] + b;
      WordsSplitAtWhitespace(a[1..], c, b);
    } else {
      var m := LeadingWordLength(a);
      assert s == a + ([c] + b);
      LeadingWordLengthBeforeWhitespace(a, [c] + b);
      assert s[0] == a[0];
      assert s[..m] == a[..m] && s[m..] == a[m..] + [c] + b;
      WordsSplitAtWhitespace(a[m..], c, b);
    }
  }

  /** The non-whitespace characters of `s`, in order. */
  function WithoutWhitespace(s: string): string {
    if s == [] then []
    else if IsWhitespace(s[0]) then WithoutWhitespace(s[1..])
    else [s[0]] + WithoutWhitespace(s[1..])
  }

  function Concat(ws: seq<string>): string {
    if ws == [] then [] else ws[0] + Concat(ws[1..])
  }

  lemma {:induction false} WithoutWhitespaceAppend(a: string, b: string)
    ensures WithoutWhitespace(a + b) == WithoutWhitespace(a) + WithoutWhitespace(b)
    decreases |a|
  {
    if a == [] {
      assert a + b == b;
    } else {
      var ab := a + b;
      assert ab[0] == a[0] && ab[1..] == a[1..] + b;
      WithoutWhitespaceAppend(a[1..], b);
      if IsWhitespace(a[0]) {
        calc {
          WithoutWhitespace(ab);
          WithoutWhitespace(a[1..] + b);
          WithoutWhitespace(a[1..]) + WithoutWhitespace(b);
        }
      } else {
        calc {
          WithoutWhitespace(ab);
          [a[0]] + WithoutWhitespace(a[1..] + b);
          [a[0]] + (WithoutWhitespace(a[1..]) + WithoutWhitespace(b));
          ([a[0]] + WithoutWhitespace(a[1..])) + WithoutWhitespace(b);
        }
      }
    }
  }

  lemma {:induction false} WithoutWhitespaceOfWord(w: string)
    requires HasNoWhitespace(w)
    ensures WithoutWhitespace(w) == w
    decreases |w|
  {
    if w != [] {
      WithoutWhitespaceOfWord(w[1..]);
    }
  }

  /** The words `split()` returns, put back together, are exactly the text's
      non-whitespace characters: nothing is lost, duplicated or reordered. */
  lemma {:induction false} WordsCoverText(s: string)
    ensures Concat(Words(s)) == WithoutWhitespace(s)
    decreases |s|
  {
    if s != [] {
      if IsWhitespace(s[0]) {
        WordsCoverText(s[1..]);
      } else {
        var n := LeadingWordLength(s);
        assert s == s[..n] + s[n..];
        WordsCoverText(s[n..]);
        WithoutWhitespaceAppend(s[..n], s[n..]);
        WithoutWhitespaceOfWord(s[..n]);
        assert Words(s)[1..] == Words(s[n..]);
      }
    }
  }

  /** `split()` finds no word exactly when the text is blank. */
  lemma {:induction false} WordsEmptyIffBlank(s: string)
    ensures Words(s) == [] <==> IsBlank(s)
    decreases |s|
  {
    if s != [] && IsWhitespace(s[0]) {
      WordsEmptyIffBlank(s[1..]);
      if IsBlank(s[1..]) {
        forall i | 0 <= i < |s| ensures IsWhitespace(s[i]) {
          if i > 0 { assert s[i] == s[1..][i - 1]; }
        }
      } else {
        var i :| 0 <= i < |s[1..]| && !IsWhitespace(s[1..][i]);
        assert !IsWhitespace(s[i + 1]);
      }
    }
  }

  /** Python's `xs[-n:]` for a positive `n`: the last `n` elements, or the
      whole list when it is shorter. */
  function LastN<T>(xs: seq<T>, n: nat): (r: seq<T>)
    requires n > 0
    ensures |r| == if |xs| < n then |xs| else n
    ensures r == xs[|xs| - |r|..]
  {
    if |xs| <= n then xs else xs[|xs| - n..]
  }

  /** When fewer than `n` elements are appended, the last `n` of the whole
      are the appended ones preceded by the last `n - |ys|` of the rest. */
  lemma LastNAppend<T>(xs: seq<T>, ys: seq<T>, n: nat)
    requires |ys| < n
    ensures LastN(xs + ys, n) == LastN(xs, n - |ys|) + ys
  {
    var r, k := LastN(xs + ys, n), n - |ys|;
    assert r == (xs + ys)[|xs| - |LastN(xs, k)|..];
  }

  /** When at least `n` elements are appended, the last `n` of the whole
      are the last `n` of the appended ones. */
  lemma LastNWithin<T>(xs: seq<T>, ys: seq<T>, n: nat)
    requires 0 < n <= |ys|
    ensures LastN(xs + ys, n) == LastN(ys, n)
  {
    var r := LastN(xs + ys, n);
    forall k | 0 <= k < n ensures r[k] == ys[|ys| - n + k] {
      assert r[k] == (xs + ys)[|xs| + |ys| - n + k];
    }
  }

  /** Cutting to the last `n` and then to the last `k <= n` is cutting to the
      last `k`. */
  lemma LastNOfLastN<T>(xs: seq<T>, n: nat, k: nat)
    requires 0 < k <= n
    ensures LastN(LastN(xs, n), k) == LastN(xs, k)
  {
  }

  /** Taking the last `n` before appending more and taking the last `n`
      again loses nothing: capping commutes with appending. */
  lemma LastNAbsorbs<T>(xs: seq<T>, ys: seq<T>, n: nat)
    requires n > 0
    ensures LastN(LastN(xs, n) + ys, n) == LastN(xs + ys, n)
  {
    var capped := LastN(xs, n);
    if |ys| < n {
      LastNAppend(capped, ys, n);
      LastNAppend(xs, ys, n);
      LastNOfLastN(xs, n, n - |ys|);
    } else {
      LastNWithin(capped, ys, n);
      LastNWithin(xs, ys, n);
    }
  }

  /** `reversed(xs)`: position `i` of the result holds the element that is
      `i` places from the end of `xs`. */
  function Reversed<T>(xs: seq<T>): (r: seq<T>)
    ensures |r| == |xs|
    ensures forall i :: 0 <= i < |xs| ==> r[i] == xs[|xs| - 1 - i]
  {
    if xs == [] then [] else [xs[|xs| - 1]] + Reversed(xs[..|xs| - 1])
  }
}
