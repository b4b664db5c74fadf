/**
  String helpers shared by the reference parser and the results summary:
  JavaScript whitespace (`\s`, `String.prototype.trim`), the `\s+` collapse,
  `split('\n')` / `join(sep)`, and the decimal rendering of numbers used in
  template strings (`ref-${n}`, `[${k}]`).
 */
module Text {

  /** The characters matched by JavaScript's `\s` and removed by `trim()`:
      ECMAScript WhiteSpace (TAB, VT, FF, ZWNBSP and the Space_Separator
      category) and LineTerminator (LF, CR, LS, PS). */
  predicate IsWs(c: char) {
    || c == ' ' || c == '\t' || c == '\n' || c == '\r' || c == '\U{B}' || c == '\U{C}'
    || c == '\U{A0}' || c == '\U{1680}' || ('\U{2000}' <= c <= '\U{200A}')
    || c == '\U{2028}' || c == '\U{2029}' || c == '\U{202F}' || c == '\U{205F}'
    || c == '\U{3000}' || c == '\U{FEFF}'
  }

  /** JavaScript's `\d`: an ASCII decimal digit. */
  predicate IsDigit(c: char) {
    '0' <= c <= '9'
  }

  ghost predicate AllWs(s: string) {
    forall i :: 0 <= i < |s| ==> IsWs(s[i])
  }

  ghost predicate AllDigits(s: string) {
    forall i :: 0 <= i < |s| ==> IsDigit(s[i])
  }

  /** No leading and no trailing whitespace. */
  ghost predicate IsTrimmed(s: string) {
    s == [] || (!IsWs(s[0]) && !IsWs(s[|s| - 1]))
  }

  /** No two whitespace characters next to each other. */
  ghost predicate NoDoubleWs(s: string) {
    forall i, j :: 0 <= i && j == i + 1 && j < |s| ==> !(IsWs(s[i]) && IsWs(s[j]))
  }

  /** The only whitespace character present is the plain space. */
  ghost predicate OnlySpaceWs(s: string) {
    forall i :: 0 <= i < |s| ==> IsWs(s[i]) ==> s[i] == ' '
  }

  /** The whitespace normal form produced by `.replace(/\s+/g, ' ').trim()`. */
  ghost predicate IsNormalized(s: string) {
    IsTrimmed(s) && NoDoubleWs(s) && OnlySpaceWs(s)
  }

  /** The visible (non-whitespace) characters of `s`, in order. */
  function Visible(s: string): string {
    if s == [] then []
    else if IsWs(s[0]) then Visible(s[1..])
    else [s[0]] + Visible(s[1..])
  }

  lemma {:induction false} VisibleAppend(a: string, b: string)
    ensures Visible(a + b) == Visible(a) + Visible(b)
    decreases |a|
  {
    if a == [] {
      assert a + b == b;
    } else {
      assert (a + b)[1..] == a[1..] + b;
      VisibleAppend(a[1..], b);
    }
  }

  lemma {:induction false} VisibleOfWs(s: string)
    requires AllWs(s)
    ensures Visible(s) == []
    decreases |s|
  {
    if s != [] {
      VisibleOfWs(s[1..]);
    }
  }

  /** Leading whitespace removed: what is dropped is all whitespace, and what is
      kept is empty or starts with a visible character. */
  function TrimStart(s: string): (r: string)
    ensures |r| <= |s|
    ensures r == [] || !IsWs(r[0])
    decreases |s|
  {
    if s != [] && IsWs(s[0]) then TrimStart(s[1..]) else s
  }

  /** `TrimStart` keeps a suffix and drops whitespace only. */
  lemma {:induction false} TrimStartFacts(s: string)
    ensures TrimStart(s) == s[|s| - |TrimStart(s)|..]
    ensures AllWs(s[..|s| - |TrimStart(s)|])
    decreases |s|
  {
    if s != [] && IsWs(s[0]) {
      TrimStartFacts(s[1..]);
      var k := |s[1..]| - |TrimStart(s[1..])|;
      assert s[1..][k..] == s[k + 1..];
      assert s[..k + 1] == [s[0]] + s[1..][..k];
    }
  }

  /** Leading whitespace up to a visible character at `k` is what `TrimStart`
      removes. */
  lemma {:induction false} TrimStartAt(s: string, k: nat)
    requires k < |s| && AllWs(s[..k]) && !IsWs(s[k])
    ensures TrimStart(s) == s[k..]
    decreases k
  {
    if k > 0 {
      assert IsWs(s[..k][0]);
      var front := s[1..][..k - 1];
      assert AllWs(front) by {
        forall j | 0 <= j < |front| ensures IsWs(front[j]) {
          assert front[j] == s[..k][j + 1];
        }
      }
      TrimStartAt(s[1..], k - 1);
      assert s[1..][k - 1..] == s[k..];
    }
  }

  /** Trailing whitespace removed: what is dropped is all whitespace, and what is
      kept is empty or ends with a visible character. */
  function TrimEnd(s: string): (r: string)
    ensures |r| <= |s|
    ensures r == [] || !IsWs(r[|r| - 1])
    decreases |s|
  {
    if s != [] && IsWs(s[|s| - 1]) then TrimEnd(s[..|s| - 1]) else s
  }

  /** `TrimEnd` keeps a prefix and drops whitespace only. */
  lemma {:induction false} TrimEndFacts(s: string)
    ensures TrimEnd(s) == s[..|TrimEnd(s)|]
    ensures AllWs(s[|TrimEnd(s)|..])
    decreases |s|
  {
    if s != [] && IsWs(s[|s| - 1]) {
      var init := s[..|s| - 1];
      TrimEndFacts(init);
      var k := |TrimEnd(init)|;
      assert init[..k] == s[..k];
      assert s[k..] == init[k..] + [s[|s| - 1]];
    }
  }

  /** A visible character is never cut off by `TrimEnd`. */
  lemma {:induction false} TrimEndKeepsVisible(s: string, j: nat)
    requires j < |s| && !IsWs(s[j])
    ensures j < |TrimEnd(s)|
    decreases |s|
  {
    if IsWs(s[|s| - 1]) {
      TrimEndKeepsVisible(s[..|s| - 1], j);
    }
  }

  /** `String.prototype.trim`. */
  function Trim(s: string): (r: string)
    ensures IsTrimmed(r)
  {
    var t := TrimStart(s);
    var r := TrimEnd(t);
    TrimEndFacts(t);
    assert r != [] ==> r[0] == t[0];
    r
  }

  /** `trim()` loses nothing visible, keeps the single-space and space-only
      properties of its input (it returns a slice of it), and leaves a trimmed
      string as it is. */
  lemma TrimFacts(s: string)
    ensures Visible(Trim(s)) == Visible(s)
    ensures NoDoubleWs(s) ==> NoDoubleWs(Trim(s))
    ensures OnlySpaceWs(s) ==> OnlySpaceWs(Trim(s))
    ensures IsTrimmed(s) ==> Trim(s) == s
  {
    var t := TrimStart(s);
    var r := TrimEnd(t);
    assert Trim(s) == r;
    TrimVisible(s, t, r);
    TrimIsSlice(s, t, r);
    TrimIdentity(s, t, r);
  }

  lemma TrimIsSlice(s: string, t: string, r: string)
    requires t == TrimStart(s) && r == TrimEnd(t)
    ensures NoDoubleWs(s) ==> NoDoubleWs(r)
    ensures OnlySpaceWs(s) ==> OnlySpaceWs(r)
  {
    TrimStartFacts(s);
    TrimEndFacts(t);
    SliceKeepsSpacing(s, |s| - |t|, |s|);
    SliceKeepsSpacing(t, 0, |r|);
  }

  lemma TrimIdentity(s: string, t: string, r: string)
    requires t == TrimStart(s) && r == TrimEnd(t)
    ensures IsTrimmed(s) ==> r == s
  {
    if IsTrimmed(s) && s != [] {
      assert t == s;
      TrimEndFacts(t);
    }
  }

  /** A slice of a string keeps its spacing properties. */
  lemma SliceKeepsSpacing(s: string, a: nat, b: nat)
    requires a <= b <= |s|
    ensures NoDoubleWs(s) ==> NoDoubleWs(s[a..b])
    ensures OnlySpaceWs(s) ==> OnlySpaceWs(s[a..b])
  {
    if NoDoubleWs(s) {
      forall i, j | 0 <= i && j == i + 1 && j < b - a
        ensures !(IsWs(s[a..b][i]) && IsWs(s[a..b][j]))
      {
        assert s[a..b][i] == s[a + i] && s[a..b][j] == s[a + j];
      }
    }
  }

  lemma TrimVisible(s: string, t: string, r: string)
    requires t == TrimStart(s) && r == TrimEnd(t)
    ensures Visible(r) == Visible(s)
  {
    TrimStartVisible(s);
    TrimEndVisible(t);
  }

  lemma {:induction false} TrimStartVisible(s: string)
    ensures Visible(TrimStart(s)) == Visible(s)
    decreases |s|
  {
    if s != [] && IsWs(s[0]) {
      TrimStartVisible(s[1..]);
    }
  }

  lemma {:induction false} TrimEndVisible(s: string)
    ensures Visible(TrimEnd(s)) == Visible(s)
    decreases |s|
  {
    if s != [] && IsWs(s[|s| - 1]) {
      var init := s[..|s| - 1];
      TrimEndVisible(init);
      assert s == init + [s[|s| - 1]];
      VisibleAppend(init, [s[|s| - 1]]);
    }
  }

  /** `.replace(/\s+/g, ' ')`: every maximal run of whitespace becomes one space. */
  function Collapse(s: string): (r: string)
    decreases |s|
  {
    if s == [] then []
    else if IsWs(s[0]) then [' '] + Collapse(TrimStart(s))
    else [s[0]] + Collapse(s[1..])
  }

  /** The collapse leaves single spaces only, loses nothing visible, and starts
      with whitespace exactly when its input does. */
  lemma {:induction false} CollapseFacts(s: string)
    ensures NoDoubleWs(Collapse(s)) && OnlySpaceWs(Collapse(s))
    ensures Visible(Collapse(s)) == Visible(s)
    ensures Collapse(s) == [] <==> s == []
    ensures Collapse(s) != [] ==> (IsWs(Collapse(s)[0]) <==> IsWs(s[0]))
    decreases |s|
  {
    if s != [] {
      if IsWs(s[0]) {
        var t := TrimStart(s);
        TrimStartFacts(s);
        CollapseFacts(t);
        assert s == s[..|s| - |t|] + t;
        VisibleAppend(s[..|s| - |t|], t);
        VisibleOfWs(s[..|s| - |t|]);
        assert Collapse(s) == [' '] + Collapse(t);
      } else {
        CollapseFacts(s[1..]);
        assert Collapse(s) == [s[0]] + Collapse(s[1..]);
      }
    }
  }

  /** A trailing whitespace run becomes a space too: the collapse of a non-empty
      string ends with whitespace exactly when the string does. */
  lemma {:induction false} CollapseEnd(s: string)
    ensures s != [] ==> Collapse(s) != [] && (IsWs(Collapse(s)[|Collapse(s)| - 1]) <==> IsWs(s[|s| - 1]))
    decreases |s|
  {
    if s != [] && IsWs(s[0]) {
      var t := TrimStart(s);
      TrimStartFacts(s);
      assert Collapse(s) == [' '] + Collapse(t);
      if t == [] {
        assert IsWs(s[..|s|][|s| - 1]);
      } else {
        CollapseEnd(t);
        assert t[|t| - 1] == s[|s| - 1];
      }
    } else if s != [] {
      var t := s[1..];
      assert Collapse(s) == [s[0]] + Collapse(t);
      if t != [] {
        CollapseEnd(t);
        assert t[|t| - 1] == s[|s| - 1];
      }
    }
  }

  /** The collapse changes nothing in a string that has only single spaces. */
  lemma {:induction false} CollapseIdentity(s: string)
    ensures NoDoubleWs(s) && OnlySpaceWs(s) ==> Collapse(s) == s
    decreases |s|
  {
    if s != [] && NoDoubleWs(s) && OnlySpaceWs(s) {
      assert NoDoubleWs(s[1..]) && OnlySpaceWs(s[1..]);
      if IsWs(s[0]) {
        assert TrimStart(s) == s[1..] by {
          assert s[1..] == [] || !IsWs(s[1]);
        }
      }
      CollapseIdentity(s[1..]);
    }
  }

  /** A visible character passes through the collapse unchanged. */
  lemma CollapseCons(c: char, q: string)
    requires !IsWs(c)
    ensures Collapse([c] + q) == [c] + Collapse(q)
  {
    assert ([c] + q)[1..] == q;
  }

  /** A visible prefix passes through the collapse unchanged. */
  lemma {:induction false} CollapseVisiblePrefix(p: string, q: string)
    requires forall i :: 0 <= i < |p| ==> !IsWs(p[i])
    ensures Collapse(p + q) == p + Collapse(q)
    decreases |p|
  {
    if p == [] {
      assert p + q == q;
    } else {
      assert p + q == [p[0]] + (p[1..] + q);
      CollapseCons(p[0], p[1..] + q);
      CollapseVisiblePrefix(p[1..], q);
      assert [p[0]] + p[1..] == p;
    }
  }

  /** The whitespace normalisation `.replace(/\s+/g, ' ').trim()`. Its result is in
      normal form, keeps every visible character in order, and is the identity on
      strings already in normal form (so normalising twice changes nothing);
      `NormalizeWords` pins it down as the words of the input joined by single
      spaces. */
  function Normalize(s: string): (r: string)
    ensures IsNormalized(r)
    ensures Visible(r) == Visible(s)
    ensures IsNormalized(s) ==> r == s
  {
    CollapseFacts(s);
    CollapseIdentity(s);
    TrimFacts(Collapse(s));
    Trim(Collapse(s))
  }

  /** A visible prefix of the input is a prefix of its normal form. */
  lemma NormalizeKeepsVisiblePrefix(s: string, n: nat)
    requires 0 < n <= |s|
    requires forall i :: 0 <= i < n ==> !IsWs(s[i])
    ensures n <= |Normalize(s)| && Normalize(s)[..n] == s[..n]
  {
    assert s == s[..n] + s[n..];
    CollapseVisiblePrefix(s[..n], s[n..]);
    var c := Collapse(s);
    assert c[..n] == s[..n];
    assert TrimStart(c) == c by {
      assert !IsWs(c[0]);
    }
    TrimEndKeepsVisible(c, n - 1);
    var r := TrimEnd(c);
    TrimEndFacts(c);
    assert Normalize(s) == r;
    assert r[..n] == c[..n];
  }

  /** `parts.join(sep)`. */
  function Join(parts: seq<string>, sep: string): string
    decreases |parts|
  {
    if |parts| == 0 then ""
    else if |parts| == 1 then parts[0]
    else parts[0] + sep + Join(parts[1..], sep)
  }

  /** The joined string starts with the first part. */
  lemma JoinPrefix(parts: seq<string>, sep: string)
    requires |parts| >= 1
    ensures |parts[0]| <= |Join(parts, sep)| && Join(parts, sep)[..|parts[0]|] == parts[0]
  {
    if |parts| > 1 {
      assert Join(parts, sep) == parts[0] + (sep + Join(parts[1..], sep));
    }
  }

  /** No whitespace at all. */
  ghost predicate NoWs(w: string) {
    forall j :: 0 <= j < |w| ==> !IsWs(w[j])
  }

  /** The length of the run of visible characters at the start of `s`. */
  function VisibleRun(s: string): (n: nat)
    ensures n <= |s|
    ensures forall j :: 0 <= j < n ==> !IsWs(s[j])
    ensures n < |s| ==> IsWs(s[n])
    decreases |s|
  {
    if s != [] && !IsWs(s[0]) then 1 + VisibleRun(s[1..]) else 0
  }

  /** The words of `s`: its maximal runs of visible characters, in order. */
  function Words(s: string): (ws: seq<string>)
    ensures forall i :: 0 <= i < |ws| ==> ws[i] != [] && NoWs(ws[i])
    decreases |s|
  {
    if s == [] then []
    else if IsWs(s[0]) then Words(s[1..])
    else
      var n := VisibleRun(s);
      assert forall j :: 0 <= j < n ==> s[..n][j] == s[j];
      [s[..n]] + Words(s[n..])
  }

  /** A visible run ends where the string does or where whitespace starts. */
  lemma {:induction false} VisibleRunAppend(a: string, c: string)
    requires VisibleRun(a) < |a| || (c != [] && IsWs(c[0]))
    ensures VisibleRun(a + c) == VisibleRun(a)
    decreases |a|
  {
    if a == [] {
      assert a + c == c;
    } else if !IsWs(a[0]) {
      assert (a + c)[1..] == a[1..] + c;
      VisibleRunAppend(a[1..], c);
    }
  }

  /** A single word is its own list of words. */
  lemma WordsOfWord(w: string)
    requires w != [] && NoWs(w)
    ensures Words(w) == [w]
  {
    assert w[..|w|] == w;
  }

  /** Whitespace in front of a string adds no word. */
  lemma {:induction false} WordsSkipWs(sp: string, b: string)
    requires AllWs(sp)
    ensures Words(sp + b) == Words(b)
    decreases |sp|
  {
    if sp == [] {
      assert sp + b == b;
    } else {
      assert (sp + b)[1..] == sp[1..] + b;
      WordsSkipWs(sp[1..], b);
    }
  }

  /** Whitespace between two strings separates their words: none is joined
      across it. */
  lemma {:induction false} WordsAppendWs(a: string, sp: string, b: string)
    requires sp != [] && AllWs(sp)
    ensures Words(a + sp + b) == Words(a) + Words(b)
    decreases |a|
  {
    var s := a + sp + b;
    if a == [] {
      assert Words(s) == Words(a) + Words(b) by {
        assert s == sp + b;
        WordsSkipWs(sp, b);
        assert Words(a) + Words(b) == Words(b);
      }
    } else if IsWs(a[0]) {
      assert Words(s) == Words(a) + Words(b) by {
        assert s[1..] == a[1..] + sp + b;
        WordsAppendWs(a[1..], sp, b);
        assert Words(s) == Words(s[1..]);
        assert Words(a) == Words(a[1..]);
      }
    } else {
      assert Words(s) == Words(a) + Words(b) by {
        var n := VisibleRun(a);
        WordsAfterRun(a, sp + b);
        assert s == a + (sp + b);
        assert a[n..] + (sp + b) == a[n..] + sp + b;
        WordsAppendWs(a[n..], sp, b);
        assert Words(a) == [a[..n]] + Words(a[n..]);
      }
    }
  }

  /** The first word of `a` stays the first word when whitespace follows `a`. */
  lemma WordsAfterRun(a: string, c: string)
    requires a != [] && !IsWs(a[0]) && c != [] && IsWs(c[0])
    ensures Words(a + c) == [a[..VisibleRun(a)]] + Words(a[VisibleRun(a)..] + c)
  {
    var n := VisibleRun(a);
    VisibleRunAppend(a, c);
    assert (a + c)[..n] == a[..n];
    assert (a + c)[n..] == a[n..] + c;
  }

  /** `trim()` keeps the words. */
  lemma WordsTrim(x: string)
    ensures Words(Trim(x)) == Words(x)
  {
    var t := TrimStart(x);
    WordsTrimStart(x);
    var r := TrimEnd(t);
    TrimEndFacts(t);
    var tail := t[|r|..];
    if tail != [] {
      assert t == r + tail + [];
      WordsAppendWs(r, tail, []);
    }
    assert Trim(x) == r;
  }

  /** Trimming the end of a string that starts with a visible character
      trims the end of the whole. */
  lemma {:induction false} TrimEndAppend(p: string, q: string)
    requires q != [] && !IsWs(q[0])
    ensures TrimEnd(p + q) == p + TrimEnd(q)
    decreases |q|
  {
    if IsWs(q[|q| - 1]) {
      assert (p + q)[..|p + q| - 1] == p + q[..|q| - 1];
      TrimEndAppend(p, q[..|q| - 1]);
    }
  }

  /** Leading whitespace does not change the normal form. */
  lemma NormalizeSkipWs(s: string)
    requires s != [] && IsWs(s[0])
    ensures Normalize(s) == Normalize(s[1..])
  {
    var c := Collapse(TrimStart(s));
    assert Collapse(s) == [' '] + c;
    assert TrimStart([' '] + c) == TrimStart(c) by {
      assert ([' '] + c)[1..] == c;
    }
    if s[1..] != [] && IsWs(s[1]) {
      assert TrimStart(s[1..]) == TrimStart(s);
      assert Collapse(s[1..]) == [' '] + c;
    } else {
      assert TrimStart(s) == s[1..];
    }
  }

  /** The normal form of a word followed by whitespace and more text: the word,
      then one space and the normal form of the rest unless that is empty. */
  lemma NormalizeAfterWord(w: string, rest: string)
    requires w != [] && NoWs(w) && rest != [] && IsWs(rest[0])
    ensures Normalize(w + rest) == if Normalize(rest) == [] then w else w + " " + Normalize(rest)
  {
    var c := AfterWordCollapse(w, rest);
    var x := w + [' '] + c;
    if c == [] {
      assert x == w + [' '] && x[..|x| - 1] == w;
      assert TrimEnd(x) == TrimEnd(w);
      assert !IsWs(w[|w| - 1]);
    } else {
      TrimEndAppend(w + [' '], c);
      TrimEndKeepsVisible(c, 0);
    }
  }

  /** The collapse of a word followed by whitespace and more text: the word,
      one space, and the collapse `c` of the text after the whitespace. */
  lemma AfterWordCollapse(w: string, rest: string) returns (c: string)
    requires w != [] && NoWs(w) && rest != [] && IsWs(rest[0])
    ensures c == [] || !IsWs(c[0])
    ensures Normalize(rest) == TrimEnd(c)
    ensures Normalize(w + rest) == TrimEnd(w + [' '] + c)
  {
    var t := TrimStart(rest);
    c := Collapse(t);
    CollapseFacts(t);
    assert Collapse(rest) == [' '] + c;
    assert TrimStart([' '] + c) == TrimStart(c) by {
      assert ([' '] + c)[1..] == c;
    }
    CollapseVisiblePrefix(w, rest);
    var x := w + [' '] + c;
    assert Collapse(w + rest) == x;
    assert TrimStart(x) == x by {
      assert x[0] == w[0];
    }
  }

  /** The normal form is exactly the words of the input joined by single
      spaces: every whitespace run between two words becomes one space, and
      whitespace before the first word or after the last disappears. */
  lemma {:induction false} NormalizeWords(s: string)
    ensures Normalize(s) == Join(Words(s), " ")
    decreases |s|
  {
    if s != [] && IsWs(s[0]) {
      NormalizeWords(s[1..]);
      NormalizeSkipWs(s);
    } else if s != [] {
      var n := VisibleRun(s);
      var w := s[..n];
      var rest := s[n..];
      assert s == w + rest;
      var ws := Words(rest);
      assert Words(s) == [w] + ws;
      if rest == [] {
        CollapseVisiblePrefix(w, []);
        assert w + [] == w;
        TrimFacts(w);
      } else {
        NormalizeWords(rest);
        NormalizeAfterWord(w, rest);
        if ws != [] {
          assert ([w] + ws)[1..] == ws;
          JoinPrefix(ws, " ");
        }
      }
    }
  }

  /** The collapse keeps the words: no whitespace run between two words
      disappears, so no two words are run together. */
  lemma {:induction false} CollapseWords(s: string)
    ensures Words(Collapse(s)) == Words(s)
    decreases |s|
  {
    if s != [] && IsWs(s[0]) {
      var t := TrimStart(s);
      CollapseWords(t);
      assert Words(Collapse(s)) == Words(Collapse(t)) by {
        assert Collapse(s) == [' '] + Collapse(t);
        WordsSkipWs([' '], Collapse(t));
      }
      WordsTrimStart(s);
    } else if s != [] {
      var n := VisibleRun(s);
      var w := s[..n];
      var rest := s[n..];
      assert Words(s) == [w] + Words(rest) && Collapse(s) == w + Collapse(rest) by {
        assert s == w + rest;
        CollapseVisiblePrefix(w, rest);
      }
      WordsOfWord(w);
      if rest == [] {
        assert w + [] == w;
      } else {
        var t := TrimStart(rest);
        CollapseWords(t);
        WordsTrimStart(rest);
        assert Words(w + Collapse(rest)) == [w] + Words(Collapse(t)) by {
          assert Collapse(rest) == [' '] + Collapse(t);
          assert w + Collapse(rest) == w + [' '] + Collapse(t);
          WordsAppendWs(w, [' '], Collapse(t));
        }
      }
    }
  }

  /** Leading whitespace adds no word. */
  lemma WordsTrimStart(s: string)
    ensures Words(TrimStart(s)) == Words(s)
  {
    var t := TrimStart(s);
    TrimStartFacts(s);
    assert s == s[..|s| - |t|] + t;
    WordsSkipWs(s[..|s| - |t|], t);
  }

  /** Splitting words joined by single spaces gives the words back. */
  lemma {:induction false} WordsJoin(ws: seq<string>)
    requires forall i :: 0 <= i < |ws| ==> ws[i] != [] && NoWs(ws[i])
    ensures Words(Join(ws, " ")) == ws
    decreases |ws|
  {
    if |ws| == 1 {
      WordsOfWord(ws[0]);
    } else if |ws| > 1 {
      WordsJoin(ws[1..]);
      WordsOfWord(ws[0]);
      assert Join(ws, " ") == ws[0] + " " + Join(ws[1..], " ");
      WordsAppendWs(ws[0], " ", Join(ws[1..], " "));
      assert [ws[0]] + ws[1..] == ws;
    }
  }

  /** Normalising keeps the words. */
  lemma WordsNormalize(s: string)
    ensures Words(Normalize(s)) == Words(s)
  {
    NormalizeWords(s);
    WordsJoin(Words(s));
  }

  /** `s.split('\n')`: the pieces of `s` between newlines. */
  function SplitLines(s: string): (r: seq<string>)
    ensures |r| >= 1
    decreases |s|
  {
    if s == [] then [""]
    else if s[0] == '\n' then [""] + SplitLines(s[1..])
    else
      var rest := SplitLines(s[1..]);
      [[s[0]] + rest[0]] + rest[1..]
  }

  /** No piece holds a newline, and joining the pieces back with newlines gives
      `s` again. */
  lemma {:induction false} SplitLinesFacts(s: string)
    ensures forall i :: 0 <= i < |SplitLines(s)| ==> '\n' !in SplitLines(s)[i]
    ensures Join(SplitLines(s), "\n") == s
    decreases |s|
  {
    if s != [] {
      var rest := SplitLines(s[1..]);
      SplitLinesFacts(s[1..]);
      if s[0] == '\n' {
        assert ([""] + rest)[1..] == rest;
        assert Join([""] + rest, "\n") == "" + "\n" + Join(rest, "\n");
      } else {
        var r := [[s[0]] + rest[0]] + rest[1..];
        assert Join(r, "\n") == [s[0]] + Join(rest, "\n") by {
          if |rest| > 1 {
            assert r[1..] == rest[1..];
          }
        }
        assert forall i :: 1 <= i < |r| ==> r[i] == rest[i];
      }
    }
  }

  /** Splitting a newline-free string gives that string alone. */
  lemma {:induction false} SplitLinesNoNewline(p: string)
    requires '\n' !in p
    ensures SplitLines(p) == [p]
    decreases |p|
  {
    if p != [] {
      assert '\n' !in p[1..];
      SplitLinesNoNewline(p[1..]);
      assert [p[0]] + p[1..] == p;
    }
  }

  /** Splitting at the first newline. */
  lemma {:induction false} SplitLinesCons(p: string, t: string)
    requires '\n' !in p
    ensures SplitLines(p + "\n" + t) == [p] + SplitLines(t)
    decreases |p|
  {
    if p == [] {
      assert p + "\n" + t == "\n" + t;
      assert ("\n" + t)[1..] == t;
    } else {
      assert (p + "\n" + t)[1..] == p[1..] + "\n" + t;
      assert '\n' !in p[1..];
      SplitLinesCons(p[1..], t);
      assert [p[0]] + p[1..] == p;
    }
  }

  /** `join('\n')` followed by `split('\n')` gives back the lines, provided no
      line holds a newline of its own. */
  lemma {:induction false} SplitJoinLines(parts: seq<string>)
    requires |parts| >= 1
    requires forall i :: 0 <= i < |parts| ==> '\n' !in parts[i]
    ensures SplitLines(Join(parts, "\n")) == parts
    decreases |parts|
  {
    if |parts| == 1 {
      SplitLinesNoNewline(parts[0]);
    } else {
      SplitJoinLines(parts[1..]);
      SplitLinesCons(parts[0], Join(parts[1..], "\n"));
      assert [parts[0]] + parts[1..] == parts;
    }
  }

  function DigitChar(d: nat): (c: char)
    requires d < 10
    ensures IsDigit(c)
  {
    ('0' as int + d) as char
  }

  /** The value of a string of decimal digits. */
  function DecimalValue(s: string): nat
    requires AllDigits(s)
    decreases |s|
  {
    if s == [] then 0
    else 10 * DecimalValue(s[..|s| - 1]) + (s[|s| - 1] as int - '0' as int)
  }

  /** JavaScript's rendering of a non-negative integer in a template string:
      decimal digits, without a leading zero unless the number is zero. */
  function NatToString(n: nat): (r: string)
    ensures |r| >= 1 && AllDigits(r)
    ensures |r| > 1 ==> r[0] != '0'
    decreases n
  {
    if n < 10 then [DigitChar(n)]
    else NatToString(n / 10) + [DigitChar(n % 10)]
  }

  /** Reading the rendering back gives the number. */
  lemma {:induction false} NatToStringRoundTrip(n: nat)
    ensures DecimalValue(NatToString(n)) == n
    decreases n
  {
    if n >= 10 {
      var r := NatToString(n);
      assert r[..|r| - 1] == NatToString(n / 10);
      NatToStringRoundTrip(n / 10);
    }
  }

  /** Distinct numbers render differently. */
  lemma NatToStringInjective(a: nat, b: nat)
    ensures NatToString(a) == NatToString(b) <==> a == b
  {
    NatToStringRoundTrip(a);
    NatToStringRoundTrip(b);
  }
}
