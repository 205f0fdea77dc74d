/**
 * The string primitives the sniffer tool relies on: Python's substring test,
 * splitting a header into whitespace-separated tokens after collapsing its
 * whitespace runs, and Python 2's decimal integer parse.
 */
module Text {
  import opened Wrappers

  /** Whitespace as Python 2's `\s` and `str.split()` see it in a byte string. */
  predicate IsSpace(c: char) {
    c == ' ' || c == '\t' || c == '\n' || c == '\r' || c == '\U{000B}' || c == '\U{000C}'
  }

  predicate AllSpace(s: string) {
    forall i :: 0 <= i < |s| ==> IsSpace(s[i])
  }

  /** A token: a non-empty string without whitespace. */
  predicate IsWord(s: string) {
    s != [] && forall i :: 0 <= i < |s| ==> !IsSpace(s[i])
  }

  /** `pat` occurs in `s` at offset `i`. */
  predicate OccursAt(s: string, pat: string, i: int) {
    0 <= i && i + |pat| <= |s| && s[i..i + |pat|] == pat
  }

  /** Python's `pat in s`: `pat` occurs in `s` at some offset. */
  predicate Contains(s: string, pat: string) {
    exists i :: 0 <= i <= |s| - |pat| && OccursAt(s, pat, i)
  }

  /** Length of the longest whitespace-free prefix of `s`. */
  function WordLen(s: string): (n: nat)
    ensures n <= |s|
    ensures forall i :: 0 <= i < n ==> !IsSpace(s[i])
    ensures n < |s| ==> IsSpace(s[n])
  {
    if s == [] || IsSpace(s[0]) then 0 else 1 + WordLen(s[1..])
  }

  /**
   * The tokens of `s`: its maximal whitespace-free runs, in order. Collapsing
   * each whitespace run to one space before splitting changes nothing, so this
   * is also the tokens of the collapsed line.
   */
  function Tokens(s: string): (r: seq<string>)
    ensures forall k :: 0 <= k < |r| ==> IsWord(r[k])
    decreases |s|
  {
    if s == [] then []
    else if IsSpace(s[0]) then Tokens(s[1..])
    else
      var n := WordLen(s);
      [s[..n]] + Tokens(s[n..])
  }

  /** Leading whitespace contributes no token. */
  lemma {:induction false} TokensSkipSpace(w: string, b: string)
    requires AllSpace(w)
    ensures Tokens(w + b) == Tokens(b)
    decreases |w|
  {
    if w != [] {
      assert (w + b)[0] == w[0] && IsSpace(w[0]);
      assert (w + b)[1..] == w[1..] + b;
      assert Tokens(w + b) == Tokens(w[1..] + b);
      TokensSkipSpace(w[1..], b);
    } else {
      assert w + b == b;
    }
  }

  /** Appending text after a word boundary does not change the first word. */
  lemma {:induction false} WordLenAppend(a: string, t: string)
    requires WordLen(a) < |a| || t == [] || IsSpace(t[0])
    ensures WordLen(a + t) == WordLen(a)
    decreases |a|
  {
    if a != [] && !IsSpace(a[0]) {
      assert (a + t)[1..] == a[1..] + t;
      WordLenAppend(a[1..], t);
    }
  }

  /**
   * Replacing a non-empty whitespace run by a single space leaves the tokens
   * unchanged, wherever the run is.
   */
  lemma {:induction false} TokensCollapseRun(a: string, w: string, b: string)
    requires w != [] && AllSpace(w)
    ensures Tokens(a + w + b) == Tokens(a + " " + b)
    decreases |a|
  {
    if a == [] {
      CollapseAfterNothing(w, b);
    } else if IsSpace(a[0]) {
      TokensCollapseRun(a[1..], w, b);
      CollapseAfterSpace(a, w, b);
    } else if WordLen(a) == |a| {
      CollapseAfterWord(a, w, b);
    } else {
      TokensCollapseRun(a[WordLen(a)..], w, b);
      CollapseAfterFirstWord(a, w, b);
    }
  }

  lemma CollapseAfterNothing(w: string, b: string)
    requires AllSpace(w)
    ensures Tokens([] + w + b) == Tokens([] + " " + b)
  {
    assert [] + w + b == w + b;
    assert [] + " " + b == " " + b;
    TokensSkipSpace(w, b);
    TokensSkipSpace(" ", b);
  }

  lemma CollapseAfterSpace(a: string, w: string, b: string)
    requires a != [] && IsSpace(a[0])
    requires Tokens(a[1..] + w + b) == Tokens(a[1..] + " " + b)
    ensures Tokens(a + w + b) == Tokens(a + " " + b)
  {
    assert (a + w + b)[0] == a[0] && (a + w + b)[1..] == a[1..] + w + b;
    assert (a + " " + b)[0] == a[0] && (a + " " + b)[1..] == a[1..] + " " + b;
  }

  lemma CollapseAfterWord(a: string, w: string, b: string)
    requires a != [] && !IsSpace(a[0]) && WordLen(a) == |a|
    requires w != [] && AllSpace(w)
    ensures Tokens(a + w + b) == Tokens(a + " " + b)
  {
    assert a + w + b == a + (w + b);
    assert a + " " + b == a + (" " + b);
    TokensFirstWord(a, w + b);
    TokensFirstWord(a, " " + b);
    assert a[|a|..] + (w + b) == w + b;
    assert a[|a|..] + (" " + b) == " " + b;
    TokensSkipSpace(w, b);
    TokensSkipSpace(" ", b);
  }

  lemma CollapseAfterFirstWord(a: string, w: string, b: string)
    requires a != [] && !IsSpace(a[0]) && WordLen(a) < |a|
    requires w != [] && AllSpace(w)
    requires Tokens(a[WordLen(a)..] + w + b) == Tokens(a[WordLen(a)..] + " " + b)
    ensures Tokens(a + w + b) == Tokens(a + " " + b)
  {
    var n := WordLen(a);
    assert a + w + b == a + (w + b);
    assert a + " " + b == a + (" " + b);
    TokensFirstWord(a, w + b);
    TokensFirstWord(a, " " + b);
    assert a[n..] + (w + b) == a[n..] + w + b;
    assert a[n..] + (" " + b) == a[n..] + " " + b;
  }

  /** A line that opens with a word followed, at the latest, by whitespace in `rest`. */
  lemma TokensFirstWord(a: string, rest: string)
    requires a != [] && !IsSpace(a[0])
    requires rest != [] && IsSpace(rest[0])
    ensures Tokens(a + rest) == [a[..WordLen(a)]] + Tokens(a[WordLen(a)..] + rest)
  {
    var n := WordLen(a);
    WordLenAppend(a, rest);
    ConcatSlices(a, rest, n);
    TokensOpenWord(a + rest);
  }

  lemma TokensOpenWord(s: string)
    requires s != [] && !IsSpace(s[0])
    ensures Tokens(s) == [s[..WordLen(s)]] + Tokens(s[WordLen(s)..])
  {
  }

  lemma ConcatSlices(a: string, b: string, n: nat)
    requires 0 < n <= |a|
    ensures (a + b)[0] == a[0]
    ensures (a + b)[..n] == a[..n] && (a + b)[n..] == a[n..] + b
  {
  }

  /** Every token occurs in the line it was split from. */
  lemma {:induction false} TokensOccur(s: string, k: nat)
    requires k < |Tokens(s)|
    ensures Contains(s, Tokens(s)[k])
    decreases |s|
  {
    if IsSpace(s[0]) {
      TokensOccur(s[1..], k);
      ContainsInSuffix(s, 1, Tokens(s)[k]);
    } else {
      var n := WordLen(s);
      if k == 0 {
        assert OccursAt(s, s[..n], 0);
      } else {
        TokensOccur(s[n..], k - 1);
        ContainsInSuffix(s, n, Tokens(s)[k]);
      }
    }
  }

  /** What occurs in a suffix occurs in the whole string. */
  lemma ContainsInSuffix(s: string, j: nat, pat: string)
    requires j <= |s| && Contains(s[j..], pat)
    ensures Contains(s, pat)
  {
    var i :| 0 <= i <= |s[j..]| - |pat| && OccursAt(s[j..], pat, i);
    assert s[j..][i..i + |pat|] == s[j + i..j + i + |pat|];
    assert OccursAt(s, pat, j + i);
  }

  /** Lengthening or shortening a whitespace run leaves the tokens unchanged. */
  lemma WhitespaceRunLength(a: string, w1: string, w2: string, b: string)
    requires w1 != [] && AllSpace(w1)
    requires w2 != [] && AllSpace(w2)
    ensures Tokens(a + w1 + b) == Tokens(a + w2 + b)
  {
    TokensCollapseRun(a, w1, b);
    TokensCollapseRun(a, w2, b);
  }

  /**
   * `words` laid out with the whitespace `gaps` around and between them:
   * gaps[0] words[0] gaps[1] ... words[n-1] gaps[n].
   */
  function Layout(words: seq<string>, gaps: seq<string>): string
    requires |gaps| == |words| + 1
  {
    if words == [] then gaps[0] else gaps[0] + words[0] + Layout(words[1..], gaps[1..])
  }

  /** Gaps that are whitespace and, between two words, not empty. */
  predicate Separators(words: seq<string>, gaps: seq<string>) {
    && |gaps| == |words| + 1
    && (forall i :: 0 <= i < |gaps| ==> AllSpace(gaps[i]))
    && (forall i :: 0 < i < |words| ==> gaps[i] != [])
  }

  /** The tokenizer recovers every word of a line, whatever whitespace separates them. */
  lemma {:induction false} TokensOfLayout(words: seq<string>, gaps: seq<string>)
    requires forall k :: 0 <= k < |words| ==> IsWord(words[k])
    requires Separators(words, gaps)
    ensures Tokens(Layout(words, gaps)) == words
    decreases |words|
  {
    if words == [] {
      assert Layout(words, gaps) == gaps[0] + [];
      TokensSkipSpace(gaps[0], []);
    } else {
      var w := words[0];
      var rest := Layout(words[1..], gaps[1..]);
      assert Separators(words[1..], gaps[1..]);
      LayoutOpensWithSpace(words[1..], gaps[1..]);
      TokensOfLayout(words[1..], gaps[1..]);
      assert Layout(words, gaps) == gaps[0] + (w + rest);
      TokensSkipSpace(gaps[0], w + rest);
      TokensWordThen(w, rest);
    }
  }

  /** A layout whose first gap is not empty, or that has no words, opens with whitespace or is empty. */
  lemma LayoutOpensWithSpace(words: seq<string>, gaps: seq<string>)
    requires Separators(words, gaps)
    requires words != [] ==> gaps[0] != []
    ensures Layout(words, gaps) == [] || IsSpace(Layout(words, gaps)[0])
  {
    if words != [] {
      assert Layout(words, gaps)[0] == gaps[0][0];
    }
  }

  /** A word followed by whitespace, or by nothing, is the first token. */
  lemma TokensWordThen(w: string, rest: string)
    requires IsWord(w)
    requires rest == [] || IsSpace(rest[0])
    ensures Tokens(w + rest) == [w] + Tokens(rest)
  {
    WordLenAppend(w, rest);
    assert WordLen(w) == |w|;
    assert (w + rest)[..|w|] == w;
    assert (w + rest)[|w|..] == rest;
  }

  predicate IsDigit(c: char) {
    '0' as int <= c as int <= '9' as int
  }

  /** A non-empty string of ASCII decimal digits. */
  predicate IsDigits(s: string) {
    s != [] && forall i :: 0 <= i < |s| ==> IsDigit(s[i])
  }

  /** The value of a string of decimal digits, most significant first. */
  function DigitsValue(s: string): nat
    requires forall i :: 0 <= i < |s| ==> IsDigit(s[i])
  {
    if s == [] then 0 else assert IsDigit(s[|s| - 1]); 10 * DigitsValue(s[..|s| - 1]) + (s[|s| - 1] as int - '0' as int)
  }

  /**
   * Python 2's `int(s)` on a whitespace-free token: an optional sign followed
   * by decimal digits; anything else is a ValueError, here None.
   */
  function ParseInt(s: string): (r: Option<int>)
    ensures r.Some? <==> IsDigits(s) || (|s| > 1 && (s[0] == '-' || s[0] == '+') && IsDigits(s[1..]))
  {
    if |s| > 1 && s[0] == '-' && IsDigits(s[1..]) then Some(-(DigitsValue(s[1..]) as int))
    else if |s| > 1 && s[0] == '+' && IsDigits(s[1..]) then Some(DigitsValue(s[1..]))
    else if IsDigits(s) then Some(DigitsValue(s))
    else None
  }

  function Digit(d: nat): char
    requires d < 10
  {
    ('0' as int + d) as char
  }

  /** Decimal rendering of a natural number, without leading zeros. */
  function ShowNat(n: nat): (s: string)
    ensures IsDigits(s)
  {
    if n < 10 then [Digit(n)] else ShowNat(n / 10) + [Digit(n % 10)]
  }

  /** Decimal rendering of an integer, with a '-' for negative values. */
  function ShowInt(i: int): string {
    if i < 0 then "-" + ShowNat(-i) else ShowNat(i)
  }

  lemma {:induction false} DigitsValueOfShowNat(n: nat)
    ensures DigitsValue(ShowNat(n)) == n
    decreases n
  {
    if n >= 10 {
      var s := ShowNat(n);
      assert s[..|s| - 1] == ShowNat(n / 10);
      DigitsValueOfShowNat(n / 10);
    }
  }

  /** `int()` inverts the decimal rendering of every integer, and the rendering is a token. */
  lemma ParseIntOfShowInt(i: int)
    ensures IsWord(ShowInt(i))
    ensures ParseInt(ShowInt(i)) == Some(i)
  {
    var s := ShowInt(i);
    if i < 0 {
      assert s[1..] == ShowNat(-i);
      DigitsValueOfShowNat(-i);
    } else {
      DigitsValueOfShowNat(i);
    }
  }
}
