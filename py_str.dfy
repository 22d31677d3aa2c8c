/**
 * The few Python `str` builtins the engine relies on: `split()` with no
 * separator, `sep.join(parts)`, `strip()` with no argument and `lower()`.
 */
module PyStr {

  /** The characters for which Python's `str.isspace()` holds; `split()` and `strip()` cut on exactly these. */
  predicate IsSpace(c: char) {
    ('\U{0009}' <= c <= '\U{000D}') || ('\U{001C}' <= c <= '\U{001F}') || c == ' '
    || c == '\U{0085}' || c == '\U{00A0}' || c == '\U{1680}'
    || ('\U{2000}' <= c <= '\U{200A}') || c == '\U{2028}' || c == '\U{2029}'
    || c == '\U{202F}' || c == '\U{205F}' || c == '\U{3000}'
  }

  /** Every character of `s` is whitespace (this includes the empty string). */
  predicate IsBlank(s: string) {
    forall i :: 0 <= i < |s| ==> IsSpace(s[i])
  }

  /** A word as `split()` produces it: non-empty, with no whitespace in it. */
  predicate IsWord(w: string) {
    w != [] && forall i :: 0 <= i < |w| ==> !IsSpace(w[i])
  }

  predicate AllWords(ws: seq<string>) {
    forall i :: 0 <= i < |ws| ==> IsWord(ws[i])
  }

  /** Length of the run of non-whitespace characters that starts `s`. */
  function WordLength(s: string): (n: nat)
    ensures n <= |s|
    ensures forall i :: 0 <= i < n ==> !IsSpace(s[i])
    ensures n < |s| ==> IsSpace(s[n])
  {
    if s == [] || IsSpace(s[0]) then 0 else 1 + WordLength(s[1..])
  }

  /** `s.split()`: the maximal runs of non-whitespace characters, in order. */
  function Split(s: string): (words: seq<string>)
    ensures AllWords(words)
    decreases |s|
  {
    if s == [] then []
    else if IsSpace(s[0]) then Split(s[1..])
    else
      var n := WordLength(s);
      [s[..n]] + Split(s[n..])
  }

  /** `sep.join(parts)`. */
  function Join(parts: seq<string>, sep: string): string
    decreases |parts|
  {
    if |parts| == 0 then ""
    else if |parts| == 1 then parts[0]
    else parts[0] + sep + Join(parts[1..], sep)
  }

  /** `s.lstrip()`: drops the leading whitespace and nothing else. */
  function StripLeft(s: string): (r: string)
    ensures |r| <= |s| && r == s[|s| - |r|..]
    ensures IsBlank(s[..|s| - |r|])
    ensures r == [] || !IsSpace(r[0])
  {
    if s != [] && IsSpace(s[0]) then
      var r := StripLeft(s[1..]);
      StripLeftStep(s, r);
      r
    else s
  }

  /** One step of `lstrip()`: what is left of `s[1..]` is left of `s`, and a leading whitespace joins the removed blank prefix. */
  lemma StripLeftStep(s: string, r: string)
    requires s != [] && IsSpace(s[0])
    requires |r| <= |s| - 1 && r == s[1..][|s| - 1 - |r|..] && IsBlank(s[1..][..|s| - 1 - |r|])
    ensures r == s[|s| - |r|..] && IsBlank(s[..|s| - |r|])
  {
    var n := |s| - |r|;
    forall i | 0 <= i < n ensures IsSpace(s[..n][i]) {
      if i > 0 {
        assert s[..n][i] == s[1..][..n - 1][i - 1];
      }
    }
  }

  /** `s.rstrip()`: drops the trailing whitespace and nothing else. */
  function StripRight(s: string): (r: string)
    ensures |r| <= |s| && r == s[..|r|]
    ensures IsBlank(s[|r|..])
    ensures r == [] || !IsSpace(r[|r| - 1])
  {
    if s != [] && IsSpace(s[|s| - 1]) then
      var r := StripRight(s[..|s| - 1]);
      StripRightStep(s, r);
      r
    else s
  }

  /** One step of `rstrip()`: what is left of `s[..|s| - 1]` is left of `s`, and a trailing whitespace joins the removed blank suffix. */
  lemma StripRightStep(s: string, r: string)
    requires s != [] && IsSpace(s[|s| - 1])
    requires |r| <= |s| - 1 && r == s[..|s| - 1][..|r|] && IsBlank(s[..|s| - 1][|r|..])
    ensures r == s[..|r|] && IsBlank(s[|r|..])
  {
    forall i | |r| <= i < |s| ensures IsSpace(s[i]) {
      if i < |s| - 1 {
        assert s[i] == s[..|s| - 1][|r|..][i - |r|];
      }
    }
  }

  /** `s.strip()`: what is left is empty exactly when `s` was blank, and otherwise neither starts nor ends with whitespace. */
  function Strip(s: string): (r: string)
    ensures r == [] <==> IsBlank(s)
    ensures r == [] || (!IsSpace(r[0]) && !IsSpace(r[|r| - 1]))
  {
    var l := StripLeft(s);
    var r := StripRight(l);
    assert r == [] ==> IsBlank(s) by {
      if r == [] {
        assert l[|r|..] == l;
        assert s == s[..|s| - |l|] + l;
      }
    }
    r
  }

  /** `lower()` restricted to ASCII letters. */
  function LowerChar(c: char): char {
    if 'A' <= c <= 'Z' then (c as int + 32) as char else c
  }

  function Lower(s: string): (r: string)
    ensures |r| == |s|
    ensures forall i :: 0 <= i < |s| ==> r[i] == LowerChar(s[i])
  {
    if s == [] then [] else [LowerChar(s[0])] + Lower(s[1..])
  }

  /** A word followed by nothing or by whitespace is read back by `WordLength` as exactly that word. */
  lemma {:induction false} WordLengthOfWord(w: string, rest: string)
    requires forall i :: 0 <= i < |w| ==> !IsSpace(w[i])
    requires rest == [] || IsSpace(rest[0])
    ensures WordLength(w + rest) == |w|
  {
    if w != [] {
      assert (w + rest)[1..] == w[1..] + rest;
      WordLengthOfWord(w[1..], rest);
    } else {
      assert w + rest == rest;
    }
  }

  /** Round trip: splitting words that were joined with single spaces gives the words back. */
  lemma {:induction false} SplitJoin(ws: seq<string>)
    requires AllWords(ws)
    ensures Split(Join(ws, " ")) == ws
  {
    if |ws| == 1 {
      var w := ws[0];
      WordLengthOfWord(w, "");
      assert w + "" == w;
      assert w[..|w|] == w && w[|w|..] == [];
    } else if |ws| > 1 {
      assert Join(ws, " ") == ws[0] + (" " + Join(ws[1..], " "));
      SplitAfterWord(ws[0], Join(ws[1..], " "));
      SplitJoin(ws[1..]);
      assert [ws[0]] + ws[1..] == ws;
    }
  }

  /** A word followed by a space and more text splits into that word and the words of the rest. */
  lemma SplitAfterWord(w: string, tail: string)
    requires IsWord(w)
    ensures Split(w + (" " + tail)) == [w] + Split(tail)
  {
    var rest := " " + tail;
    var s := w + rest;
    WordLengthOfWord(w, rest);
    assert s[..|w|] == w;
    assert s[|w|..] == rest;
    assert rest[1..] == tail;
    calc {
      Split(s);
      [w] + Split(rest);
      [w] + Split(tail);
    }
  }

  /** `split()` finds no word exactly when the text is empty or whitespace only. */
  lemma {:induction false} SplitBlank(s: string)
    ensures Split(s) == [] <==> IsBlank(s)
    decreases |s|
  {
    if s != [] && IsSpace(s[0]) {
      SplitBlank(s[1..]);
      assert IsBlank(s) <==> IsBlank(s[1..]) by {
        if IsBlank(s[1..]) {
          forall i | 0 <= i < |s| ensures IsSpace(s[i]) {
            if i > 0 { assert s[i] == s[1..][i - 1]; }
          }
        }
      }
    }
  }

  /** Words joined with single spaces form a non-empty string with no whitespace at either end. */
  lemma {:induction false} JoinWordsUnpadded(ws: seq<string>)
    requires AllWords(ws) && ws != []
    ensures var s := Join(ws, " "); s != [] && !IsSpace(s[0]) && !IsSpace(s[|s| - 1])
  {
    if |ws| > 1 {
      JoinWordsUnpadded(ws[1..]);
      var tail := Join(ws[1..], " ");
      assert Join(ws, " ") == ws[0] + " " + tail;
    }
  }

  /** What `strip()` removes: `s` is blank text, then the stripped text, then blank text. */
  lemma StripExactly(s: string) returns (before: string, after: string)
    ensures s == before + Strip(s) + after
    ensures IsBlank(before) && IsBlank(after)
  {
    var l := StripLeft(s);
    var r := StripRight(l);
    StripOfLeft(s);
    before, after := s[..|s| - |l|], l[|r|..];
    Around(s, |s| - |l|, l, r);
    assert IsBlank(before) by {
      forall i | 0 <= i < |before| ensures IsSpace(before[i]) {
        assert before[i] == s[..|s| - |l|][i];
      }
    }
  }

  /** A prefix `r` of the suffix `l == s[a..]` splits `s` into what comes before, `r`, and what follows `r` in `l`. */
  lemma Around<T>(s: seq<T>, a: nat, l: seq<T>, r: seq<T>)
    requires a <= |s| && l == s[a..] && |r| <= |l| && r == l[..|r|]
    ensures s == s[..a] + r + l[|r|..]
  {
    assert s == s[..a] + l;
    assert l == r + l[|r|..];
  }

  lemma StripOfLeft(s: string)
    ensures Strip(s) == StripRight(StripLeft(s))
  {
  }

  /** `strip()` leaves alone a string that has no whitespace at either end. */
  lemma StripUnpadded(s: string)
    requires s == [] || (!IsSpace(s[0]) && !IsSpace(s[|s| - 1]))
    ensures Strip(s) == s
  {
  }

  /** Joining two non-empty lists is joining each and gluing the halves with one more separator. */
  lemma {:induction false} JoinAppend(a: seq<string>, b: seq<string>, sep: string)
    requires a != [] && b != []
    ensures Join(a + b, sep) == Join(a, sep) + sep + Join(b, sep)
    decreases |a|
  {
    if |a| == 1 {
      assert (a + b)[1..] == b;
    } else {
      assert (a + b)[1..] == a[1..] + b;
      JoinAppend(a[1..], b, sep);
    }
  }

  /** A piece of a stretch of `u` is the same piece of `u`, shifted by where the stretch starts. */
  lemma SliceWithin<T>(u: seq<T>, c: nat, v: seq<T>, j: nat, n: nat)
    requires c + |v| <= |u| && u[c..c + |v|] == v && j + n <= |v|
    ensures u[c + j..c + j + n] == v[j..j + n]
  {
    var a, b := u[c + j..c + j + n], v[j..j + n];
    forall t | 0 <= t < n
      ensures a[t] == b[t]
    {
      assert v[j + t] == u[c..c + |v|][j + t];
    }
  }

  /** `part` appears verbatim in `whole`, starting at index `at`. */
  ghost predicate Occurs<T>(part: seq<T>, whole: seq<T>, at: nat) {
    at + |part| <= |whole| && whole[at..at + |part|] == part
  }

  /** What appears in a stretch of `whole` appears in `whole`, shifted by where the stretch starts. */
  lemma OccursWithin<T>(part: seq<T>, mid: seq<T>, whole: seq<T>, j: nat, c: nat)
    requires Occurs(part, mid, j) && Occurs(mid, whole, c)
    ensures Occurs(part, whole, c + j)
  {
    SliceWithin(whole, c, mid, j, |part|);
  }

  /** Each of six glued pieces is the slice of the whole that starts where the pieces before it end. */
  lemma SixPieces<T>(a: seq<T>, b: seq<T>, c: seq<T>, d: seq<T>, e: seq<T>, f: seq<T>)
    ensures var s := a + b + c + d + e + f;
      var i := |a| + |b|;
      var j := i + |c| + |d|;
      && |s| == j + |e| + |f|
      && s[..|a|] == a && s[|a|..i] == b
      && s[i..i + |c|] == c && s[i + |c|..j] == d
      && s[j..j + |e|] == e && s[j + |e|..] == f
  {
    var s := a + b + c + d + e + f;
    var i := |a| + |b|;
    var j := i + |c| + |d|;
    assert s == (a + b) + (c + d) + (e + f);
    assert s[..i] == a + b && s[i..j] == c + d && s[j..] == e + f;
    assert s[..|a|] == (a + b)[..|a|] && s[|a|..i] == (a + b)[|a|..];
    assert s[i..i + |c|] == (c + d)[..|c|] && s[i + |c|..j] == (c + d)[|c|..];
    assert s[j..j + |e|] == (e + f)[..|e|] && s[j + |e|..] == (e + f)[|e|..];
  }

  /** The first and the last of three glued pieces appear in the whole at their offsets. */
  lemma OccursInConcat<T>(a: seq<T>, b: seq<T>, c: seq<T>)
    ensures Occurs(a, a + b + c, 0) && Occurs(c, a + b + c, |a| + |b|)
  {
    assert (a + b + c)[..|a|] == a;
    assert (a + b + c)[|a| + |b|..] == c;
  }

  /** Each part appears verbatim in `sep.join(parts)`; `k` is where it starts. */
  lemma {:induction false} JoinContains(parts: seq<string>, sep: string, i: nat) returns (k: nat)
    requires i < |parts|
    ensures Occurs(parts[i], Join(parts, sep), k)
    decreases i
  {
    if |parts| == 1 {
      k := 0;
      assert Join(parts, sep)[..|parts[0]|] == parts[0];
    } else {
      var rest := parts[1..];
      assert Join(parts, sep) == parts[0] + sep + Join(rest, sep);
      OccursInConcat(parts[0], sep, Join(rest, sep));
      if i == 0 {
        k := 0;
      } else {
        var j := JoinContains(rest, sep, i - 1);
        assert rest[i - 1] == parts[i];
        OccursWithin(parts[i], Join(rest, sep), Join(parts, sep), j, |parts[0]| + |sep|);
        k := |parts[0]| + |sep| + j;
      }
    }
  }
}
