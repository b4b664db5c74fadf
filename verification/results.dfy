/**
  The results panel: the "resolved" counter in its header and the text that the
  "Copy Results" button puts on the clipboard, one line per reference.
 */
module Results {
  import opened Text
  import opened Types
  import opened Parser

  /** `successCount`: how many references resolved to a DOI. */
  function SuccessCount(items: seq<ReferenceItem>): (r: nat)
    ensures r <= |items|
    ensures r == 0 <==> forall k :: 0 <= k < |items| ==> items[k].status != Success
    ensures r == |items| <==> forall k :: 0 <= k < |items| ==> items[k].status == Success
  {
    WithStatusBounds(items, Success);
    |WithStatus(items, Success)|
  }

  /** Once every reference is settled, the counter, the not-found references and
      the failed ones account for the whole list. */
  lemma {:induction false} SettledCounts(items: seq<ReferenceItem>)
    requires forall k :: 0 <= k < |items| ==> IsTerminal(items[k].status)
    ensures SuccessCount(items) + |WithStatus(items, NotFound)| + |WithStatus(items, Error)| == |items|
    decreases |items|
  {
    if items != [] {
      SettledCounts(items[1..]);
    }
  }

  /** The condition under which a reference shows its DOI, both as the link in
      the list and in the copied text: a SUCCESS with a DOI that is not empty. */
  predicate ShowsDoi(item: ReferenceItem) {
    item.status == Success && item.doi.Some? && item.doi.value != ""
  }

  /** The DOI a reference shows, if any. */
  function ShownDoi(item: ReferenceItem): (r: Option<string>)
    ensures r.Some? <==> ShowsDoi(item)
    ensures r.Some? ==> r.value != "" && item.doi == r
  {
    if ShowsDoi(item) then item.doi else None
  }

  const DoiResolver: string := "https://doi.org/"
  const Unidentified: string := "Unknown/Unidentified"

  /** The copied line of the reference at (0-based) position `idx`. */
  function CopyLine(idx: nat, item: ReferenceItem): string {
    "[" + NatToString(idx + 1) + "] " + (if ShowsDoi(item) then DoiResolver + item.doi.value else Unidentified)
  }

  function CopyLines(items: seq<ReferenceItem>): (r: seq<string>)
    ensures |r| == |items|
  {
    seq(|items|, k requires 0 <= k < |items| => CopyLine(k, items[k]))
  }

  /** The whole copied text: the lines joined by single newlines. */
  function CopyText(items: seq<ReferenceItem>): string {
    Join(CopyLines(items), "\n")
  }

  /** What a reader of the copied text learns from one line: the 1-based
      position and the DOI, or that the reference was not identified. */
  datatype CopyEntry = CopyEntry(position: nat, doi: Option<string>)

  /** Reads a line of the form `[n] https://doi.org/<doi>` or
      `[n] Unknown/Unidentified`. */
  function ReadCopyLine(line: string): Option<CopyEntry> {
    if |line| > 0 && line[0] == '[' then
      var body := line[1..];
      var d := DigitRun(body);
      DigitRunPrefix(body);
      if 0 < d && d + 2 <= |body| && body[d] == ']' && body[d + 1] == ' ' then
        ReadTail(DecimalValue(body[..d]), body[d + 2..])
      else None
    else None
  }

  /** Reads what follows the `[n] ` of a copied line. */
  function ReadTail(n: nat, rest: string): Option<CopyEntry> {
    if |DoiResolver| <= |rest| && rest[..|DoiResolver|] == DoiResolver then
      Some(CopyEntry(n, Some(rest[|DoiResolver|..])))
    else if rest == Unidentified then Some(CopyEntry(n, None))
    else None
  }

  lemma DigitRunPrefix(s: string)
    ensures AllDigits(s[..DigitRun(s)])
  {
    var d := DigitRun(s);
    forall j | 0 <= j < d ensures IsDigit(s[..d][j]) {
      assert s[..d][j] == s[j];
    }
  }

  lemma {:induction false} DigitRunOfDigits(ds: string, rest: string)
    requires AllDigits(ds)
    requires rest != [] && !IsDigit(rest[0])
    ensures DigitRun(ds + rest) == |ds|
    decreases |ds|
  {
    if ds != [] {
      assert (ds + rest)[1..] == ds[1..] + rest;
      DigitRunOfDigits(ds[1..], rest);
    } else {
      assert ds + rest == rest;
    }
  }

  /** A line made of a bracketed number and a tail reads as that number and
      that tail. */
  lemma ReadLabelled(num: string, tail: string)
    requires |num| >= 1 && AllDigits(num)
    ensures ReadCopyLine("[" + num + "] " + tail) == ReadTail(DecimalValue(num), tail)
  {
    var line := "[" + num + "] " + tail;
    var body := num + ("] " + tail);
    Bracketed(num, tail);
    var d := |num|;
    assert DigitRun(body) == d by {
      DigitRunOfDigits(num, "] " + tail);
    }
    assert body[d] == ']' && body[d + 1] == ' ' && body[..d] == num && body[d + 2..] == tail;
    ReadBody(line, body, d);
  }

  lemma Bracketed(num: string, tail: string)
    ensures ("[" + num + "] " + tail)[0] == '['
    ensures ("[" + num + "] " + tail)[1..] == num + ("] " + tail)
  {
    assert "[" + num + "] " + tail == "[" + (num + ("] " + tail));
  }

  lemma ReadBody(line: string, body: string, d: nat)
    requires |line| > 0 && line[0] == '[' && line[1..] == body
    requires DigitRun(body) == d && 0 < d && d + 2 <= |body| && body[d] == ']' && body[d + 1] == ' '
    ensures AllDigits(body[..d])
    ensures ReadCopyLine(line) == ReadTail(DecimalValue(body[..d]), body[d + 2..])
  {
    DigitRunPrefix(body);
  }

  /** Each copied line names its position in the list (not the reference's id
      or its label in the pasted text) and exactly the DOI the list links to. */
  lemma CopyLineRoundTrip(idx: nat, item: ReferenceItem)
    ensures ReadCopyLine(CopyLine(idx, item)) == Some(CopyEntry(idx + 1, ShownDoi(item)))
  {
    var num := NatToString(idx + 1);
    var tail := if ShowsDoi(item) then DoiResolver + item.doi.value else Unidentified;
    ReadLabelled(num, tail);
    NatToStringRoundTrip(idx + 1);
    if ShowsDoi(item) {
      assert tail[..|DoiResolver|] == DoiResolver;
      assert tail[|DoiResolver|..] == item.doi.value;
    } else {
      assert tail[0] != DoiResolver[0];
    }
  }

  /** A copied line holds a newline only where the DOI it shows does. */
  lemma CopyLineNoNewline(idx: nat, item: ReferenceItem)
    requires ShowsDoi(item) ==> '\n' !in item.doi.value
    ensures '\n' !in CopyLine(idx, item)
  {
    var num := NatToString(idx + 1);
    var tail := if ShowsDoi(item) then DoiResolver + item.doi.value else Unidentified;
    assert CopyLine(idx, item) == "[" + num + "] " + tail;
    forall i | 0 <= i < |num| ensures num[i] != '\n' {
      assert IsDigit(num[i]);
    }
    assert '\n' !in tail;
  }

  /** The copied text splits back into one line per reference, in list order,
      each naming its position and the shown DOI; so it has no leading, trailing
      or doubled newline. This needs the DOIs to hold no newline themselves. */
  lemma CopyTextRoundTrip(items: seq<ReferenceItem>)
    requires items != []
    requires forall k :: 0 <= k < |items| && ShowsDoi(items[k]) ==> '\n' !in items[k].doi.value
    ensures SplitLines(CopyText(items)) == CopyLines(items)
    ensures forall k :: 0 <= k < |items| ==>
      ReadCopyLine(SplitLines(CopyText(items))[k]) == Some(CopyEntry(k + 1, ShownDoi(items[k])))
  {
    var lines := CopyLines(items);
    forall k | 0 <= k < |lines| ensures '\n' !in lines[k] {
      CopyLineNoNewline(k, items[k]);
    }
    SplitJoinLines(lines);
    forall k | 0 <= k < |items|
      ensures ReadCopyLine(lines[k]) == Some(CopyEntry(k + 1, ShownDoi(items[k])))
    {
      CopyLineRoundTrip(k, items[k]);
    }
  }

  /** With nothing to show the copied text is empty. */
  lemma CopyTextEmpty(items: seq<ReferenceItem>)
    ensures CopyText(items) == "" <==> items == []
  {
    if items != [] {
      JoinPrefix(CopyLines(items), "\n");
      assert CopyLines(items)[0][0] == '[';
    }
  }
}
