/** The string primitives the chunker and the keyword selector rely on:
    Python's argument-less `str.split()`, `sep.join(words)` and
    `str.lower()` restricted to ASCII letters. */
module Words {

  /** The characters Python's `str.isspace` accepts; `str.split()` with no
      separator splits on runs of exactly these. */
  predicate IsSpace(c: char) {
    || ('\t' <= c <= '\r')
    || ('\U{1C}' <= c <= ' ')
    || c == '\U{85}' || c == '\U{A0}' || c == '\U{1680}'
    || ('\U{2000}' <= c <= '\U{200A}')
    || c == '\U{2028}' || c == '\U{2029}' || c == '\U{202F}'
    || c == '\U{205F}' || c == '\U{3000}'
  }

  /** A word as `split()` produces it: non-empty and free of whitespace. */
  predicate IsWord(w: string) {
    |w| > 0 && forall i :: 0 <= i < |w| ==> !IsSpace(w[i])
  }

  /** Length of the longest whitespace-free prefix of `s`. */
  function WordLen(s: string): (n: nat)
    ensures n <= |s|
    ensures forall i :: 0 <= i < n ==> !IsSpace(s[i])
    ensures n < |s| ==> IsSpace(s[n])
  {
    if s == [] || IsSpace(s[0]) then 0 else 1 + WordLen(s[1..])
  }

  /** `s.split()`: the maximal whitespace-free runs of `s`, in order. */
  function Split(s: string): (ws: seq<string>)
    ensures forall i :: 0 <= i < |ws| ==> IsWord(ws[i])
    decreases |s|
  {
    if s == [] then []
    else if IsSpace(s[0]) then Split(s[1..])
    else
      var n := WordLen(s);
      [s[..n]] + Split(s[n..])
  }

  /** `sep.join(ws)`. */
  function Join(ws: seq<string>, sep: string): string {
    if |ws| == 0 then ""
    else if |ws| == 1 then ws[0]
    else ws[0] + sep + Join(ws[1..], sep)
  }

  /** The concatenation of a sequence of sequences. */
  function Flatten<T>(xss: seq<seq<T>>): seq<T> {
    if xss == [] then [] else xss[0] + Flatten(xss[1..])
  }

  function Concat(ss: seq<string>): string {
    if ss == [] then "" else ss[0] + Concat(ss[1..])
  }

  /** `str.lower()` on one character, for the ASCII letters. */
  function LowerChar(c: char): (d: char)
    ensures 'A' <= c <= 'Z' ==> d as int == c as int + 32
    ensures !('A' <= c <= 'Z') ==> d == c
    ensures !('A' <= d <= 'Z')
  {
    if 'A' <= c <= 'Z' then (c as int + 32) as char else c
  }

  function Lower(s: string): (r: string)
    ensures |r| == |s|
    ensures forall i :: 0 <= i < |s| ==> r[i] == LowerChar(s[i])
  {
    seq(|s|, i requires 0 <= i < |s| => LowerChar(s[i]))
  }

  // ---------------------------------------------------------------------
  // Properties of the tokenizer

  /** A word followed by nothing or by whitespace ends exactly where it ends. */
  lemma WordLenOfWord(w: string, t: string)
    requires IsWord(w)
    requires t == [] || IsSpace(t[0])
    ensures WordLen(w + t) == |w|
  {
    var s := w + t;
    assert forall i :: 0 <= i < |w| ==> s[i] == w[i];
    assert |w| < |s| ==> s[|w|] == t[0];
  }

  /** Splitting a single space-joined sequence of words gives the words back:
      whitespace-free words survive `" ".join` followed by `split()`. */
  lemma {:induction false} SplitJoin(ws: seq<string>)
    requires forall i :: 0 <= i < |ws| ==> IsWord(ws[i])
    ensures Split(Join(ws, " ")) == ws
  {
    if |ws| == 0 {
    } else if |ws| == 1 {
      var w := ws[0];
      WordLenOfWord(w, []);
      assert w + [] == w;
      assert w[..|w|] == w;
      assert w[|w|..] == [];
    } else {
      var w, rest := ws[0], Join(ws[1..], " ");
      var t := " " + rest;
      var s := w + t;
      assert Join(ws, " ") == s;
      WordLenOfWord(w, t);
      assert s[0] == w[0];
      assert s[..|w|] == w;
      assert s[|w|..] == t;
      assert t[1..] == rest;
      SplitJoin(ws[1..]);
    }
  }

  /** `split()` of two texts separated by whitespace is the concatenation of
      their splits. */
  lemma {:induction false} SplitAroundSpace(a: string, c: char, b: string)
    requires IsSpace(c)
    ensures Split(a + [c] + b) == Split(a) + Split(b)
    decreases |a|
  {
    var s := a + [c] + b;
    if a == [] {
      assert s[1..] == b;
    } else if IsSpace(a[0]) {
      assert s[0] == a[0];
      assert s[1..] == a[1..] + [c] + b;
      SplitAroundSpace(a[1..], c, b);
    } else {
      var n := WordLenPrefix(a, [c] + b);
      assert s == a + ([c] + b);
      assert s[0] == a[0];
      assert s[..n] == a[..n];
      assert s[n..] == a[n..] + [c] + b;
      assert Split(s) == [a[..n]] + Split(a[n..] + [c] + b);
      SplitAroundSpace(a[n..], c, b);
      assert Split(a) == [a[..n]] + Split(a[n..]);
    }
  }

  /** A word in `a` cannot run past a whitespace character that follows `a`. */
  lemma WordLenPrefix(a: string, t: string) returns (n: nat)
    requires a != [] && !IsSpace(a[0])
    requires t != [] && IsSpace(t[0])
    ensures n == WordLen(a) == WordLen(a + t)
  {
    n := WordLen(a);
    var s := a + t;
    assert forall i :: 0 <= i < |a| ==> s[i] == a[i];
    assert n == |a| ==> s[n] == t[0];
  }

  /** `split()` never yields an empty list for text holding a non-space. */
  lemma {:induction false} SplitEmptyIffBlank(s: string)
    ensures Split(s) == [] <==> forall i :: 0 <= i < |s| ==> IsSpace(s[i])
    decreases |s|
  {
    if s != [] {
      SplitEmptyIffBlank(s[1..]);
      assert forall i :: 1 <= i < |s| ==> s[i] == s[1..][i - 1];
    }
  }

  // ---------------------------------------------------------------------
  // Properties of lowercasing

  lemma LowerIdempotent(s: string)
    ensures Lower(Lower(s)) == Lower(s)
  {
  }

  lemma LowerAroundSpace(a: string, b: string)
    ensures Lower(a + " " + b) == Lower(a) + " " + Lower(b)
  {
    var l, r := Lower(a + " " + b), Lower(a) + " " + Lower(b);
    assert |l| == |r|;
    forall i | 0 <= i < |l| ensures l[i] == r[i] {
      if i < |a| {
      } else if i == |a| {
      } else {
        assert (a + " " + b)[i] == b[i - |a| - 1];
      }
    }
  }

  // ---------------------------------------------------------------------
  // Properties of joining

  /** `sep.join(ws)` for a non-empty `ws` is its first element followed by
      `sep + w` for each later element `w`. */
  lemma {:induction false} JoinAsPrefixed(ws: seq<string>, sep: string)
    requires |ws| >= 1
    ensures Join(ws, sep) == ws[0] + Concat(Prefixed(sep, ws[1..]))
  {
    if |ws| == 1 {
      assert ws[1..] == [];
    } else {
      JoinAsPrefixed(ws[1..], sep);
      assert ws[1..][1..] == ws[2..];
      assert Prefixed(sep, ws[1..]) == [sep + ws[1]] + Prefixed(sep, ws[2..]);
      assert (sep + ws[1]) + Concat(Prefixed(sep, ws[2..])) ==
             sep + (ws[1] + Concat(Prefixed(sep, ws[2..])));
    }
  }

  /** Each element of `ws` with `sep` in front. */
  function Prefixed(sep: string, ws: seq<string>): (r: seq<string>)
    ensures |r| == |ws|
    ensures forall i :: 0 <= i < |ws| ==> r[i] == sep + ws[i]
  {
    if ws == [] then [] else [sep + ws[0]] + Prefixed(sep, ws[1..])
  }
}
