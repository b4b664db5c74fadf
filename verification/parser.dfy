/**
  The reference parser (`parseReferences`): pasted bibliography text is split
  into lines; a line whose first visible text is a bracketed number `[n]` opens
  a new entry, later lines are continuations of the open entry, and lines
  before the first such marker are dropped. Each entry becomes a reference
  item whose text is the whitespace-normalised join of its lines.
 */
module Parser {
  import opened Text
  import opened Types

  /** `s` starts with `[`, one or more digits and `]`, `m` characters in all. */
  ghost predicate LabelAt(s: string, m: nat) {
    3 <= m <= |s| && s[0] == '[' && s[m - 1] == ']'
    && forall j :: 1 <= j < m - 1 ==> IsDigit(s[j])
  }

  /** The length of the run of digits at the start of `s`. */
  function DigitRun(s: string): (n: nat)
    ensures n <= |s|
    ensures forall j :: 0 <= j < n ==> IsDigit(s[j])
    ensures n < |s| ==> !IsDigit(s[n])
    decreases |s|
  {
    if s != [] && IsDigit(s[0]) then 1 + DigitRun(s[1..]) else 0
  }

  /** The length of the match of `^\[\d+\]` in `s`, or 0 when it does not match. */
  function LabelLen(s: string): nat {
    if |s| > 0 && s[0] == '[' then
      var d := DigitRun(s[1..]);
      if d > 0 && d + 1 < |s| && s[d + 1] == ']' then d + 2 else 0
    else 0
  }

  /** A positive `LabelLen` is a label, and every label has exactly that length. */
  lemma LabelLenFacts(s: string)
    ensures LabelLen(s) == 0 || LabelAt(s, LabelLen(s))
    ensures forall m :: LabelAt(s, m) ==> m == LabelLen(s)
  {
    if |s| > 0 && s[0] == '[' {
      var d := DigitRun(s[1..]);
      forall m: nat | LabelAt(s, m) ensures m == d + 2 {
        assert forall j :: 0 <= j < m - 2 ==> s[1..][j] == s[j + 1];
      }
      if d > 0 && d + 1 < |s| && s[d + 1] == ']' {
        assert forall j :: 1 <= j < d + 1 ==> s[j] == s[1..][j - 1];
      }
    }
  }

  /** The start-of-entry test `/^\s*\[(\d+)\]\s*(.*)/`: after any leading
      whitespace the line begins with a label. The trailing `\s*(.*)` matches
      every remainder, so it adds no condition. */
  predicate IsMarker(line: string) {
    LabelLen(TrimStart(line)) > 0
  }

  /** A marker line is some whitespace followed by a label, as `^\s*\[(\d+)\]`
      requires. */
  lemma MarkerMatch(line: string)
    ensures IsMarker(line) <==>
      exists k: nat, m: nat :: k <= |line| && AllWs(line[..k]) && LabelAt(line[k..], m)
  {
    var t := TrimStart(line);
    TrimStartFacts(line);
    LabelLenFacts(t);
    if IsMarker(line) {
      var k := |line| - |t|;
      assert AllWs(line[..k]) && LabelAt(line[k..], LabelLen(t));
    }
    if exists k: nat, m: nat :: k <= |line| && AllWs(line[..k]) && LabelAt(line[k..], m) {
      var k: nat, m: nat :| k <= |line| && AllWs(line[..k]) && LabelAt(line[k..], m);
      assert line[k] == line[k..][0] == '[';
      TrimStartAt(line, k);
      LabelLenFacts(line[k..]);
    }
  }

  /** Replacing the match of `^\[\d+\]\s*` by the empty string: the label and
      the whitespace after it are removed; a string without a label is
      returned as it is. */
  function StripLabel(s: string): string {
    var n := LabelLen(s);
    if n > 0 then TrimStart(s[n..]) else s
  }

  /** The result of `StripLabel` is a suffix of its input; without a label it
      is the input itself, and with one, what was removed is the label followed
      by whitespace only, and the result does not start with whitespace. */
  lemma StripLabelFacts(s: string)
    ensures |StripLabel(s)| <= |s| && StripLabel(s) == s[|s| - |StripLabel(s)|..]
    ensures LabelLen(s) == 0 ==> StripLabel(s) == s
    ensures LabelLen(s) > 0 ==>
      && LabelLen(s) <= |s| - |StripLabel(s)|
      && AllWs(s[LabelLen(s)..|s| - |StripLabel(s)|])
      && (StripLabel(s) == [] || !IsWs(StripLabel(s)[0]))
  {
    var n := LabelLen(s);
    if n > 0 {
      TrimStartAfter(s, n);
    }
  }

  /** Trimming the start of a suffix of `s` leaves a suffix of `s`, and removes
      only whitespace. */
  lemma TrimStartAfter(s: string, n: nat)
    requires n <= |s|
    ensures |TrimStart(s[n..])| <= |s| - n
    ensures TrimStart(s[n..]) == s[|s| - |TrimStart(s[n..])|..]
    ensures AllWs(s[n..|s| - |TrimStart(s[n..])|])
  {
    var t := s[n..];
    var r := TrimStart(t);
    TrimStartFacts(t);
    var m := |t| - |r|;
    SliceOfSuffix(s, n, m);
    assert AllWs(s[n..n + m]) by {
      assert t[..m] == s[n..n + m];
    }
  }

  /** Slicing a suffix is slicing the whole. */
  lemma SliceOfSuffix(s: string, n: nat, m: nat)
    requires n + m <= |s|
    ensures s[n..][m..] == s[n + m..]
    ensures s[n..][..m] == s[n..n + m]
  {
  }

  /** `ref-${n}`. */
  function RefId(n: nat): string {
    "ref-" + NatToString(n)
  }

  /** `flushBuffer` for a non-empty buffer: the item for entry number `n`
      whose buffered (already trimmed) lines are `buffer`. Its text is the
      words of the lines joined by single spaces, so it is in whitespace normal
      form and keeps every visible character; it starts IDLE with no lookup
      result; its query is that text without the leading label (see
      `EntryItemOf`). */
  function MakeItem(n: nat, buffer: seq<string>): (item: ReferenceItem)
    ensures item.id == RefId(n)
    ensures item.status == Idle && NoResult(item)
    ensures IsNormalized(item.originalText)
    ensures Visible(item.originalText) == Visible(Join(buffer, " "))
    ensures item.originalText == Join(Words(Join(buffer, " ")), " ")
    ensures Words(item.originalText) == Words(Join(buffer, " "))
  {
    var joined := Join(buffer, " ");
    NormalizeWords(joined);
    WordsNormalize(joined);
    var fullText := Normalize(joined);
    ReferenceItem(RefId(n), fullText, StripLabel(fullText), Idle, None, None, None, None)
  }

  /** Which lines open an entry. */
  function MarkerFlags(lines: seq<string>): (flags: seq<bool>)
    ensures |flags| == |lines|
  {
    seq(|lines|, i requires 0 <= i < |lines| => IsMarker(lines[i]))
  }

  /** The positions below `n` of the set flags, in increasing order. */
  function Positions(flags: seq<bool>, n: nat): (ms: seq<nat>)
    requires n <= |flags|
    ensures forall k :: 0 <= k < |ms| ==> ms[k] < n
    decreases n
  {
    if n == 0 then []
    else Positions(flags, n - 1) + (if flags[n - 1] then [n - 1] else [])
  }

  /** `Positions` lists exactly the set flags below `n`, in increasing order. */
  lemma {:induction false} PositionsFacts(flags: seq<bool>, n: nat)
    requires n <= |flags|
    ensures forall k :: 0 <= k < |Positions(flags, n)| ==> flags[Positions(flags, n)[k]]
    ensures forall k, l :: 0 <= k < l < |Positions(flags, n)| ==> Positions(flags, n)[k] < Positions(flags, n)[l]
    ensures forall i :: 0 <= i < n && flags[i] ==> i in Positions(flags, n)
    decreases n
  {
    if n > 0 {
      PositionsFacts(flags, n - 1);
      var ms := Positions(flags, n - 1);
      if flags[n - 1] {
        assert Positions(flags, n) == ms + [n - 1];
        forall i | 0 <= i < n && flags[i] ensures i in Positions(flags, n) {
          if i < n - 1 {
            assert i in ms;
          } else {
            assert Positions(flags, n)[|ms|] == i;
          }
        }
      } else {
        assert Positions(flags, n) == ms;
      }
    }
  }

  /** The positions below `n` of the lines that open an entry. */
  function MarkerPositions(lines: seq<string>, n: nat): seq<nat>
    requires n <= |lines|
  {
    Positions(MarkerFlags(lines), n)
  }

  /** Where entry `k` ends: at the next marker line, or at the end of the input. */
  function EntryEnd(ms: seq<nat>, k: nat, total: nat): nat
    requires k < |ms|
  {
    if k + 1 < |ms| then ms[k + 1] else total
  }

  function TrimAll(ls: seq<string>): seq<string> {
    seq(|ls|, i requires 0 <= i < |ls| => Trim(ls[i]))
  }

  lemma TrimAllSnoc(ls: seq<string>, x: string)
    ensures TrimAll(ls + [x]) == TrimAll(ls) + [Trim(x)]
  {
  }

  /** Extending a range of lines by the next line extends its trimmed lines. */
  lemma TrimAllExtend(lines: seq<string>, a: nat, i: nat)
    requires a <= i < |lines|
    ensures TrimAll(lines[a..i + 1]) == TrimAll(lines[a..i]) + [Trim(lines[i])]
  {
    assert lines[a..i + 1] == lines[a..i] + [lines[i]];
    TrimAllSnoc(lines[a..i], lines[i]);
  }

  lemma TrimAllOne(lines: seq<string>, i: nat)
    requires i < |lines|
    ensures TrimAll(lines[i..i + 1]) == [Trim(lines[i])]
  {
    assert lines[i..i + 1] == [lines[i]];
  }

  /** The buffers flushed by the parser, by definition: for every marker line,
      that line and the lines up to the next marker (or the end), each trimmed. */
  function EntryBuffers(lines: seq<string>): seq<seq<string>> {
    var ms := MarkerPositions(lines, |lines|);
    PositionsFacts(MarkerFlags(lines), |lines|);
    seq(|ms|, k requires 0 <= k < |ms| => TrimAll(lines[ms[k]..EntryEnd(ms, k, |lines|)]))
  }

  /** Entry `k` of `flushed` holds the trimmed lines from boundary `ms[k]` up to
      boundary `ms[k + 1]`. */
  ghost predicate FlushedAt(lines: seq<string>, ms: seq<nat>, flushed: seq<seq<string>>, k: nat) {
    && k < |flushed| && k + 1 < |ms| && ms[k] <= ms[k + 1] <= |lines|
    && flushed[k] == TrimAll(lines[ms[k]..ms[k + 1]])
  }

  ghost predicate Flushed(lines: seq<string>, ms: seq<nat>, flushed: seq<seq<string>>) {
    forall k: nat :: k < |flushed| ==> FlushedAt(lines, ms, flushed, k)
  }

  /** Flushing the buffer of the open entry when the next boundary is `i`. */
  lemma FlushedSnoc(lines: seq<string>, ms: seq<nat>, flushed: seq<seq<string>>, i: nat)
    requires Flushed(lines, ms, flushed)
    requires |flushed| + 1 == |ms| && ms[|ms| - 1] <= i <= |lines|
    ensures Flushed(lines, ms + [i], flushed + [TrimAll(lines[ms[|ms| - 1]..i])])
  {
    var more := ms + [i];
    var b := TrimAll(lines[ms[|ms| - 1]..i]);
    forall k: nat | k < |flushed| + 1
      ensures FlushedAt(lines, more, flushed + [b], k)
    {
      if k < |flushed| {
        assert FlushedAt(lines, ms, flushed, k);
        assert (flushed + [b])[k] == flushed[k];
      }
    }
  }

  /** Once every marker has been followed by a boundary (the last by the end of
      the input), the flushed buffers are the entries by definition. */
  lemma FlushedIsEntryBuffers(lines: seq<string>, flushed: seq<seq<string>>)
    requires Flushed(lines, MarkerPositions(lines, |lines|) + [|lines|], flushed)
    requires |flushed| == |MarkerPositions(lines, |lines|)|
    ensures flushed == EntryBuffers(lines)
  {
    var ms := MarkerPositions(lines, |lines|);
    forall k | 0 <= k < |flushed|
      ensures flushed[k] == EntryBuffers(lines)[k]
    {
      assert FlushedAt(lines, ms + [|lines|], flushed, k);
      assert (ms + [|lines|])[k] == ms[k];
      assert (ms + [|lines|])[k + 1] == EntryEnd(ms, k, |lines|);
    }
  }

  /** The items made from the flushed buffers, numbered from 1. */
  function MakeItems(buffers: seq<seq<string>>): seq<ReferenceItem> {
    seq(|buffers|, k requires 0 <= k < |buffers| => MakeItem(k + 1, buffers[k]))
  }

  lemma MakeItemsSnoc(buffers: seq<seq<string>>, b: seq<string>)
    ensures MakeItems(buffers + [b]) == MakeItems(buffers) + [MakeItem(|buffers| + 1, b)]
  {
  }

  /** The items the parser produces for the given lines. */
  function Entries(lines: seq<string>): seq<ReferenceItem> {
    MakeItems(EntryBuffers(lines))
  }

  /** The result of `parseReferences(text)`. */
  function ParseSpec(text: string): seq<ReferenceItem> {
    if text == "" then [] else Entries(SplitLines(text))
  }

  /** The parser's state between lines: the output list, the entry counter and
      the line buffer. */
  datatype ParseState = ParseState(items: seq<ReferenceItem>, currentId: nat, buffer: seq<string>)

  /** `flushBuffer`: the output list once the buffer, when non-empty, has been
      turned into an item. */
  function Flush(st: ParseState): seq<ReferenceItem> {
    if |st.buffer| > 0 then st.items + [MakeItem(st.currentId, st.buffer)] else st.items
  }

  /** One line of the pass: a marker line flushes the buffer and opens entry
      `currentId + 1`; any other line is added to the open entry, or dropped
      when no entry is open yet. */
  function Step(st: ParseState, line: string): ParseState {
    if IsMarker(line) then ParseState(Flush(st), st.currentId + 1, [Trim(line)])
    else if st.currentId > 0 then ParseState(st.items, st.currentId, st.buffer + [Trim(line)])
    else st
  }

  /** The state after the given lines. */
  function Run(lines: seq<string>): ParseState
    decreases |lines|
  {
    if lines == [] then ParseState([], 0, [])
    else Step(Run(lines[..|lines| - 1]), lines[|lines| - 1])
  }

  /** The state after the first `n` lines, with the buffers `flushed` so far:
      the counter is the number of marker lines seen, the flushed items are
      those of the entries already closed by a later marker, and the buffer
      holds the trimmed lines of the open entry. */
  ghost predicate RunInv(lines: seq<string>, n: nat, st: ParseState, flushed: seq<seq<string>>)
    requires n <= |lines|
  {
    var ms := Positions(MarkerFlags(lines), n);
    && st.currentId == |ms|
    && st.items == MakeItems(flushed)
    && Flushed(lines, ms, flushed)
    && (st.currentId == 0 ==> st.buffer == [] && flushed == [])
    && (st.currentId > 0 ==>
          |flushed| == st.currentId - 1 && st.buffer == TrimAll(lines[ms[st.currentId - 1]..n]))
  }

  /** One more line keeps the invariant. */
  lemma StepInv(lines: seq<string>, i: nat, st: ParseState, flushed: seq<seq<string>>)
    returns (flushed': seq<seq<string>>)
    requires i < |lines| && RunInv(lines, i, st, flushed)
    ensures RunInv(lines, i + 1, Step(st, lines[i]), flushed')
  {
    var ms := Positions(MarkerFlags(lines), i);
    flushed' := flushed;
    if IsMarker(lines[i]) {
      assert Positions(MarkerFlags(lines), i + 1) == ms + [i];
      if st.currentId > 0 {
        MakeItemsSnoc(flushed, st.buffer);
        FlushedSnoc(lines, ms, flushed, i);
        flushed' := flushed + [st.buffer];
      }
      TrimAllOne(lines, i);
    } else {
      assert Positions(MarkerFlags(lines), i + 1) == ms;
      if st.currentId > 0 {
        TrimAllExtend(lines, ms[st.currentId - 1], i);
      }
    }
  }

  /** The invariant holds after every prefix of the lines. */
  lemma {:induction false} RunState(lines: seq<string>, n: nat) returns (flushed: seq<seq<string>>)
    requires n <= |lines|
    ensures RunInv(lines, n, Run(lines[..n]), flushed)
    decreases n
  {
    if n == 0 {
      return [];
    }
    flushed := RunState(lines, n - 1);
    assert lines[..n][..n - 1] == lines[..n - 1];
    assert Run(lines[..n]) == Step(Run(lines[..n - 1]), lines[n - 1]);
    flushed := StepInv(lines, n - 1, Run(lines[..n - 1]), flushed);
  }

  /** The pass followed by the final flush yields the entries by definition. */
  lemma RunIsEntries(lines: seq<string>)
    ensures Flush(Run(lines)) == Entries(lines)
  {
    var flushed := RunState(lines, |lines|);
    assert lines[..|lines|] == lines;
    var st := Run(lines);
    var ms := MarkerPositions(lines, |lines|);
    if st.currentId > 0 {
      MakeItemsSnoc(flushed, st.buffer);
      FlushedSnoc(lines, ms, flushed, |lines|);
      flushed := flushed + [st.buffer];
    }
    FlushedIsEntryBuffers(lines, flushed);
  }

  /** `parseReferences`: one pass over the lines with the entry counter, the
      line buffer and the output list, flushing the buffer at every marker line
      and at the end. */
  method ParseReferences(text: string) returns (items: seq<ReferenceItem>)
    ensures items == ParseSpec(text)
  {
    if text == "" {
      return [];
    }
    var lines := SplitLines(text);
    items := [];
    var currentId: nat := 0;
    var buffer: seq<string> := [];
    for i := 0 to |lines|
      invariant ParseState(items, currentId, buffer) == Run(lines[..i])
    {
      assert lines[..i + 1][..i] == lines[..i];
      var line := lines[i];
      if IsMarker(line) {
        if |buffer| > 0 {
          items := items + [MakeItem(currentId, buffer)];
        }
        currentId := currentId + 1;
        buffer := [Trim(line)];
      } else {
        if currentId > 0 {
          buffer := buffer + [Trim(line)];
        }
      }
    }
    if |buffer| > 0 {
      items := items + [MakeItem(currentId, buffer)];
    }
    assert lines[..|lines|] == lines;
    RunIsEntries(lines);
  }

  /** The raw lines of entry `k`: its marker line and the lines up to the next
      marker line, or to the end of the input. */
  function EntryLines(lines: seq<string>, k: nat): seq<string>
    requires k < |MarkerPositions(lines, |lines|)|
  {
    var ms := MarkerPositions(lines, |lines|);
    PositionsFacts(MarkerFlags(lines), |lines|);
    lines[ms[k]..EntryEnd(ms, k, |lines|)]
  }

  /** Entry `k` starts at a marker line and ends where entry `k + 1` starts, or
      at the end of the input. */
  lemma EntryBounds(lines: seq<string>, k: nat)
    requires k < |MarkerPositions(lines, |lines|)|
    ensures var ms := MarkerPositions(lines, |lines|);
      && ms[k] < EntryEnd(ms, k, |lines|) <= |lines|
      && IsMarker(lines[ms[k]])
      && (k + 1 < |ms| ==> EntryEnd(ms, k, |lines|) == ms[k + 1])
  {
    PositionsFacts(MarkerFlags(lines), |lines|);
  }

  /** No line of entry `k` after its first is a marker line: continuation lines
      are exactly the non-marker lines that follow it. */
  lemma EntryInner(lines: seq<string>, k: nat, j: nat)
    requires k < |MarkerPositions(lines, |lines|)|
    requires MarkerPositions(lines, |lines|)[k] < j < EntryEnd(MarkerPositions(lines, |lines|), k, |lines|)
    ensures !IsMarker(lines[j])
  {
    var flags := MarkerFlags(lines);
    var ms := MarkerPositions(lines, |lines|);
    PositionsFacts(flags, |lines|);
    forall l | 0 <= l < |ms| ensures ms[l] != j {
      if l > k {
        assert ms[k + 1] <= ms[l];
      }
    }
    assert j !in ms;
    assert flags[j] == IsMarker(lines[j]);
  }

  /** The lines before the first marker line (all lines, when there is none)
      belong to no entry: none of them is a marker line. */
  lemma LeadingLinesDropped(lines: seq<string>, j: nat)
    requires j < |lines|
    requires MarkerPositions(lines, |lines|) == [] || j < MarkerPositions(lines, |lines|)[0]
    ensures !IsMarker(lines[j])
    ensures forall k :: 0 <= k < |MarkerPositions(lines, |lines|)| ==> j < MarkerPositions(lines, |lines|)[k]
  {
    var flags := MarkerFlags(lines);
    var ms := MarkerPositions(lines, |lines|);
    PositionsFacts(flags, |lines|);
    forall l | 0 <= l < |ms| ensures j < ms[l] {
      if l > 0 {
        assert ms[0] < ms[l];
      }
    }
    assert j !in ms;
    assert flags[j] == IsMarker(lines[j]);
  }

  /** The number of marker lines. */
  ghost function MarkerCount(lines: seq<string>): nat {
    |set i | 0 <= i < |lines| && IsMarker(lines[i])|
  }

  lemma {:induction false} PositionsCount(flags: seq<bool>, n: nat)
    requires n <= |flags|
    ensures |Positions(flags, n)| == |set i | 0 <= i < n && flags[i]|
    decreases n
  {
    if n > 0 {
      PositionsCount(flags, n - 1);
      var before := set i | 0 <= i < n - 1 && flags[i];
      if flags[n - 1] {
        assert (set i | 0 <= i < n && flags[i]) == before + {n - 1};
      } else {
        assert (set i | 0 <= i < n && flags[i]) == before;
      }
    }
  }

  /** There are no marker lines exactly when no line is one. */
  lemma MarkerCountZero(lines: seq<string>)
    ensures MarkerCount(lines) == 0 <==> forall i :: 0 <= i < |lines| ==> !IsMarker(lines[i])
  {
    var markers := set i | 0 <= i < |lines| && IsMarker(lines[i]);
    if exists i :: 0 <= i < |lines| && IsMarker(lines[i]) {
      var i :| 0 <= i < |lines| && IsMarker(lines[i]);
      assert i in markers;
    } else {
      assert markers == {};
    }
  }

  /** One item per marker line; in particular no item at all exactly when no
      line is a marker line. */
  lemma ParseCount(text: string)
    ensures |ParseSpec(text)| == MarkerCount(SplitLines(text))
    ensures ParseSpec(text) == [] <==>
      forall i :: 0 <= i < |SplitLines(text)| ==> !IsMarker(SplitLines(text)[i])
  {
    var lines := SplitLines(text);
    var flags := MarkerFlags(lines);
    PositionsCount(flags, |lines|);
    assert (set i | 0 <= i < |lines| && flags[i]) == (set i | 0 <= i < |lines| && IsMarker(lines[i]));
    if text == "" {
      assert lines == [""];
      assert LabelLen(TrimStart("")) == 0;
      assert (set i | 0 <= i < |lines| && IsMarker(lines[i])) == {};
    }
    MarkerCountZero(lines);
  }

  /** Trimming the lines of a join loses nothing visible. */
  lemma {:induction false} VisibleJoinTrimAll(ls: seq<string>)
    ensures Visible(Join(TrimAll(ls), " ")) == Visible(Join(ls, " "))
    decreases |ls|
  {
    var ts := TrimAll(ls);
    if |ls| == 1 {
      TrimFacts(ls[0]);
    } else if |ls| > 1 {
      VisibleJoinTrimAll(ls[1..]);
      assert ts[1..] == TrimAll(ls[1..]);
      TrimFacts(ls[0]);
      VisibleAppend(ts[0] + " ", Join(ts[1..], " "));
      VisibleAppend(ts[0], " ");
      VisibleAppend(ls[0] + " ", Join(ls[1..], " "));
      VisibleAppend(ls[0], " ");
    }
  }

  /** Trimming the lines of a join keeps its words. */
  lemma {:induction false} WordsJoinTrimAll(ls: seq<string>)
    ensures Words(Join(TrimAll(ls), " ")) == Words(Join(ls, " "))
    decreases |ls|
  {
    var ts := TrimAll(ls);
    if |ls| == 1 {
      WordsTrim(ls[0]);
    } else if |ls| > 1 {
      WordsJoinTrimAll(ls[1..]);
      assert ts[1..] == TrimAll(ls[1..]);
      WordsTrim(ls[0]);
      WordsAppendWs(ts[0], " ", Join(ts[1..], " "));
      WordsAppendWs(ls[0], " ", Join(ls[1..], " "));
    }
  }

  /** A label is decided by its own characters. */
  lemma LabelAtPrefix(a: string, b: string, n: nat)
    requires LabelAt(a, n) && n <= |b| && a[..n] == b[..n]
    ensures LabelAt(b, n)
  {
    assert forall j :: 0 <= j < n ==> a[j] == a[..n][j] == b[..n][j] == b[j];
  }

  /** A label has no whitespace in it. */
  lemma LabelVisible(s: string, n: nat)
    requires LabelAt(s, n)
    ensures forall i :: 0 <= i < n ==> !IsWs(s[i])
  {
    forall i | 0 <= i < n ensures !IsWs(s[i]) {
      if 0 < i < n - 1 {
        assert IsDigit(s[i]);
      }
    }
  }

  /** The item made from a buffer whose first line starts with a label starts
      with that same label. */
  lemma MakeItemLabel(n: nat, buffer: seq<string>, line: string)
    requires IsMarker(line) && |buffer| >= 1 && buffer[0] == Trim(line)
    ensures var width := LabelLen(TrimStart(line));
      && LabelLen(MakeItem(n, buffer).originalText) == width
      && MakeItem(n, buffer).originalText[..width] == TrimStart(line)[..width]
  {
    var t := TrimStart(line);
    var width := LabelLen(t);
    LabelLenFacts(t);
    LabelVisible(t, width);
    TrimEndKeepsVisible(t, width - 1);
    TrimEndFacts(t);
    var head := Trim(line);
    assert head[..width] == t[..width];
    var s := Join(buffer, " ");
    JoinPrefix(buffer, " ");
    assert s[..width] == head[..width];
    assert forall i :: 0 <= i < width ==> s[i] == s[..width][i] == t[..width][i] == t[i];
    NormalizeKeepsVisiblePrefix(s, width);
    var orig := MakeItem(n, buffer).originalText;
    assert orig[..width] == t[..width];
    LabelAtPrefix(t, orig, width);
    LabelLenFacts(orig);
  }

  /** On text in normal form, removing the label removes the label and at most
      one space after it. */
  lemma StripNormalized(s: string)
    requires IsNormalized(s) && LabelLen(s) > 0
    ensures var width := LabelLen(s);
      || StripLabel(s) == s[width..]
      || (width < |s| && s[width] == ' ' && StripLabel(s) == s[width + 1..])
  {
    var width := LabelLen(s);
    LabelLenFacts(s);
    var rest := s[width..];
    if rest != [] && IsWs(rest[0]) {
      assert s[width] == rest[0];
      assert width != |s| - 1;
      assert !(IsWs(s[width]) && IsWs(s[width + 1]));
      assert rest[1..] == s[width + 1..];
      assert TrimStart(rest) == TrimStart(s[width + 1..]);
    }
  }

  /** The item made from the trimmed lines `raw` of an entry (its first line a
      marker line): its text is the words of the raw lines joined by single
      spaces, so lines and words stay apart; it is in whitespace normal form,
      holds every visible character of the raw lines in order and nothing else
      visible, and starts with the label of the marker line; its query is that
      text with the label and at most one following space removed, so it never
      starts with whitespace. */
  lemma EntryItemOf(n: nat, raw: seq<string>)
    requires |raw| >= 1 && IsMarker(raw[0])
    ensures var item := MakeItem(n, TrimAll(raw));
      var marker := TrimStart(raw[0]);
      var width := LabelLen(marker);
      && IsNormalized(item.originalText)
      && item.originalText == Join(Words(Join(raw, " ")), " ")
      && Words(item.originalText) == Words(Join(raw, " "))
      && Visible(item.originalText) == Visible(Join(raw, " "))
      && 0 < width <= |item.originalText|
      && item.originalText[..width] == marker[..width]
      && (|| item.cleanQuery == item.originalText[width..]
          || (width < |item.originalText| && item.originalText[width] == ' '
              && item.cleanQuery == item.originalText[width + 1..]))
      && (item.cleanQuery == [] || !IsWs(item.cleanQuery[0]))
  {
    var item := MakeItem(n, TrimAll(raw));
    VisibleJoinTrimAll(raw);
    WordsJoinTrimAll(raw);
    MakeItemLabel(n, TrimAll(raw), raw[0]);
    StripNormalized(item.originalText);
    StripLabelFacts(item.originalText);
  }

  /** What the parser makes of entry `k`: an IDLE item without lookup result
      whose id is `ref-(k + 1)`, made as `EntryItemOf` describes from the raw
      lines of the entry, the first of which is its marker line. */
  lemma EntryItem(lines: seq<string>, k: nat)
    requires k < |MarkerPositions(lines, |lines|)|
    ensures var item := Entries(lines)[k];
      && item.id == RefId(k + 1) && item.status == Idle && NoResult(item)
      && item == MakeItem(k + 1, TrimAll(EntryLines(lines, k)))
      && |EntryLines(lines, k)| >= 1
      && EntryLines(lines, k)[0] == lines[MarkerPositions(lines, |lines|)[k]]
      && IsMarker(EntryLines(lines, k)[0])
  {
    var ms := MarkerPositions(lines, |lines|);
    EntryBounds(lines, k);
    var raw := EntryLines(lines, k);
    assert EntryBuffers(lines)[k] == TrimAll(raw);
    assert raw[0] == lines[ms[k]];
  }

  /** "ref-a" and "ref-b" are equal only for equal numbers. */
  lemma RefIdInjective(a: nat, b: nat)
    ensures RefId(a) == RefId(b) <==> a == b
  {
    if RefId(a) == RefId(b) {
      assert RefId(a)[4..] == NatToString(a);
      assert RefId(b)[4..] == NatToString(b);
      NatToStringInjective(a, b);
    }
  }

  /** Items numbered from 1 are IDLE, carry no lookup result, and have the
      distinct ids `ref-1`, `ref-2`, ... in order. */
  lemma MakeItemsFresh(buffers: seq<seq<string>>)
    ensures forall k :: 0 <= k < |buffers| ==>
      && MakeItems(buffers)[k].id == RefId(k + 1)
      && MakeItems(buffers)[k].status == Idle && NoResult(MakeItems(buffers)[k])
    ensures DistinctIds(MakeItems(buffers))
  {
    var items := MakeItems(buffers);
    forall k | 0 <= k < |buffers|
      ensures items[k].id == RefId(k + 1) && items[k].status == Idle && NoResult(items[k])
    {
      assert items[k] == MakeItem(k + 1, buffers[k]);
    }
    NumberedIds(items);
  }

  /** Items whose ids are `ref-1`, `ref-2`, ... in order have distinct ids. */
  lemma NumberedIds(items: seq<ReferenceItem>)
    requires forall k :: 0 <= k < |items| ==> items[k].id == RefId(k + 1)
    ensures DistinctIds(items)
  {
    forall i, j | 0 <= i < j < |items| ensures items[i].id != items[j].id {
      RefIdInjective(i + 1, j + 1);
    }
  }

  /** Every parsed item is IDLE without lookup result and has its own id:
      `ref-1`, `ref-2`, ... in order. */
  lemma ParseIds(text: string)
    ensures forall k :: 0 <= k < |ParseSpec(text)| ==>
      ParseSpec(text)[k].id == RefId(k + 1) && ParseSpec(text)[k].status == Idle && NoResult(ParseSpec(text)[k])
    ensures DistinctIds(ParseSpec(text))
  {
    if text != "" {
      MakeItemsFresh(EntryBuffers(SplitLines(text)));
    }
  }
}
