/** The Extractor (`extract_list_items`, main.py:34-73): one raw reply in, the ordered
    list of candidate item strings out. */
module Extractor {
  import opened Text

  const OpenTag: string := "<response>"
  const CloseTag: string := "</response>"

  /** `<response>` at `i` and `</response>` at `j`, with `j` past the whole opening tag. */
  ghost predicate TaggedPair(text: string, i: int, j: int) {
    OccursAt(text, OpenTag, i) && i + |OpenTag| <= j && OccursAt(text, CloseTag, j)
  }

  ghost predicate HasTaggedPair(text: string) {
    exists i, j :: TaggedPair(text, i, j)
  }

  /** The pair `re.search(r'<response>(.*?)</response>', text, re.DOTALL)` finds: the first
      opening tag, closed by the first closing tag after it. */
  ghost predicate FirstTaggedPair(text: string, i: int, j: int) {
    && TaggedPair(text, i, j)
    && (forall p :: 0 <= p < i ==> !OccursAt(text, OpenTag, p))
    && (forall q :: i + |OpenTag| <= q < j ==> !OccursAt(text, CloseTag, q))
  }

  /** main.py:38-39: the stripped body of the first tagged pair, or the whole text untouched. */
  function ResponseContent(text: string): (content: string)
    ensures !HasTaggedPair(text) ==> content == text
    ensures HasTaggedPair(text) ==>
      exists i, j :: FirstTaggedPair(text, i, j) && content == Strip(text[i + |OpenTag|..j])
  {
    match IndexOf(text, OpenTag, 0)
    case None => text
    case Some(i) =>
      match IndexOf(text, CloseTag, i + |OpenTag|)
      case None => text
      case Some(j) =>
        assert FirstTaggedPair(text, i, j);
        Strip(text[i + |OpenTag|..j])
  }

  /** The class `[\d\-\.\*\•\○\●\)\s]` of main.py:63. */
  predicate IsMarker(c: char) {
    || '0' <= c <= '9'
    || c == '-' || c == '.' || c == '*' || c == ')'
    || c == '\U{2022}' || c == '\U{25CB}' || c == '\U{25CF}'
    || IsSpace(c)
  }

  /** main.py:63: `line.strip()`, then the maximal leading run of markers removed. */
  function CleanLine(line: string): string {
    var s := Strip(line);
    s[LeadingRun(s, IsMarker)..]
  }

  const Fillers: seq<string> := ["here", "these", "the", "following"]

  /** `s.startswith(pats)` for a tuple of prefixes. */
  predicate StartsWithAny(s: string, pats: seq<string>) {
    pats != [] && (StartsWith(s, pats[0]) || StartsWithAny(s, pats[1..]))
  }

  /** main.py:67: the lowercase form starts with one of the filler words. */
  predicate StartsWithFiller(s: string) {
    StartsWithAny(Lower(s), Fillers)
  }

  /** Some pattern of `pats` occurs in `s`. */
  predicate ContainsAny(s: string, pats: seq<string>) {
    pats != [] && (Contains(s, pats[0]) || ContainsAny(s, pats[1..]))
  }

  /** The recursive tests are Python's `any(...)` over the patterns. */
  lemma {:induction false} StartsWithAnyMeans(s: string, pats: seq<string>)
    ensures StartsWithAny(s, pats) <==> exists k :: 0 <= k < |pats| && StartsWith(s, pats[k])
  {
    if pats != [] {
      StartsWithAnyMeans(s, pats[1..]);
      if StartsWith(s, pats[0]) {
        assert 0 < |pats|;
      }
      if exists k :: 0 <= k < |pats| && StartsWith(s, pats[k]) {
        var k :| 0 <= k < |pats| && StartsWith(s, pats[k]);
        if k > 0 {
          assert pats[1..][k - 1] == pats[k];
        }
      }
    }
  }

  lemma {:induction false} ContainsAnyMeans(s: string, pats: seq<string>)
    ensures ContainsAny(s, pats) <==> exists k :: 0 <= k < |pats| && Contains(s, pats[k])
  {
    if pats != [] {
      ContainsAnyMeans(s, pats[1..]);
      if exists k :: 0 <= k < |pats| && Contains(s, pats[k]) {
        var k :| 0 <= k < |pats| && Contains(s, pats[k]);
        if k > 0 {
          assert pats[1..][k - 1] == pats[k];
        }
      }
    }
  }

  /** The alternatives of main.py:46-57 that are fixed phrases once `'?` is spelt out. */
  const FixedDisclaimers: seq<string> := [
    "as an ai model", "as an ai language model",
    "i apologize", "i am not able to", "i do not have personal", "i must decline",
    "i don't have personal", "i dont have personal", "i am an ai", "i'm an ai"
  ]

  /** `i (can'?t|cannot|don'?t) (have|provide|assist|help)` (main.py:49). */
  const Refusals: seq<string> := ["can't", "cant", "cannot", "don't", "dont"]
  const RefusedActs: seq<string> := ["have", "provide", "assist", "help"]

  /** Every phrase "i <v> <a>" with `v` from `vs` and `a` from `acts`. */
  function RefusalPhrases(vs: seq<string>, acts: seq<string>): (r: seq<string>)
    ensures |r| == |vs| * |acts|
  {
    if vs == [] then []
    else seq(|acts|, k requires 0 <= k < |acts| => "i " + vs[0] + " " + acts[k]) + RefusalPhrases(vs[1..], acts)
  }

  /** The phrases are exactly the products of the two tables. */
  lemma {:induction false} RefusalPhrasesMeans(vs: seq<string>, acts: seq<string>)
    ensures forall p :: p in RefusalPhrases(vs, acts) <==>
              exists v, a :: v in vs && a in acts && p == "i " + v + " " + a
  {
    if vs != [] {
      RefusalPhrasesMeans(vs[1..], acts);
      assert vs == [vs[0]] + vs[1..];
      var head := seq(|acts|, k requires 0 <= k < |acts| => "i " + vs[0] + " " + acts[k]);
      forall p | p in RefusalPhrases(vs, acts)
        ensures exists v, a :: v in vs && a in acts && p == "i " + v + " " + a
      {
        if p in head {
          var k :| 0 <= k < |acts| && head[k] == p;
          assert acts[k] in acts;
        } else {
          assert p in RefusalPhrases(vs[1..], acts);
        }
      }
      forall p | exists v, a :: v in vs && a in acts && p == "i " + v + " " + a
        ensures p in RefusalPhrases(vs, acts)
      {
        var v, a :| v in vs && a in acts && p == "i " + v + " " + a;
        if v == vs[0] {
          var k :| 0 <= k < |acts| && acts[k] == a;
          assert head[k] == p;
        } else {
          assert v in vs[1..];
        }
      }
    }
  }

  /** `sorry.+ai( language)? model`: "sorry", at least one character other than a
      newline, then "ai model" or "ai language model". */
  predicate SorryAiModel(s: string) {
    exists i, j | 0 <= i < |s| && 0 <= j <= |s| && i + 5 < j ::
      && OccursAt(s, "sorry", i)
      && NoNewline(s[i + 5..j])
      && (OccursAt(s, "ai model", j) || OccursAt(s, "ai language model", j))
  }

  /** main.py:59, 68: `disclaimer_regex.search(line)` under `re.IGNORECASE`. */
  predicate IsDisclaimer(line: string) {
    var s := Lower(line);
    || SorryAiModel(s)
    || ContainsAny(s, FixedDisclaimers)
    || ContainsAny(s, RefusalPhrases(Refusals, RefusedActs))
  }

  /** main.py:66-68: the test a cleaned line must pass to be kept. */
  predicate Keeps(clean: string) {
    clean != "" && !StartsWithFiller(clean) && !IsDisclaimer(clean)
  }

  /** The shape of the loop of main.py:61-69: each line is cleaned with `clean`, and a
      cleaned line that passes `keep` is stripped and collected, in order. */
  function Collect(lines: seq<string>, clean: string -> string, keep: string -> bool): seq<string> {
    if lines == [] then []
    else
      var before := Collect(lines[..|lines| - 1], clean, keep);
      var c := clean(lines[|lines| - 1]);
      if keep(c) then before + [Strip(c)] else before
  }

  /** The items the loop of main.py:61-69 collects from `lines`. */
  function KeptItems(lines: seq<string>): seq<string> {
    Collect(lines, CleanLine, Keeps)
  }

  /** What `extract_list_items(text)` returns. */
  function ListItems(text: string): seq<string> {
    KeptItems(SplitLines(ResponseContent(text)))
  }

  /** Collecting line `k` on top of the lines before it. */
  lemma CollectNext(lines: seq<string>, k: nat, clean: string -> string, keep: string -> bool)
    requires k < |lines|
    ensures Collect(lines[..k + 1], clean, keep)
            == Collect(lines[..k], clean, keep) + (if keep(clean(lines[k])) then [Strip(clean(lines[k]))] else [])
  {
    assert lines[..k + 1][..k] == lines[..k];
  }

  /** main.py:34-73. The try/except never fires for a string argument, so the method is total. */
  method ExtractListItems(responseText: string) returns (items: seq<string>)
    ensures items == ListItems(responseText)
  {
    var content := ResponseContent(responseText);
    var lines := SplitLines(content);
    items := [];
    for k := 0 to |lines|
      invariant items == KeptItems(lines[..k])
    {
      CollectNext(lines, k, CleanLine, Keeps);
      var cleanLine := CleanLine(lines[k]);
      if Keeps(cleanLine) {
        items := items + [Strip(cleanLine)];
      }
    }
    assert lines[..|lines|] == lines;
  }

  // ---------------------------------------------------------------------------
  // Properties of the extracted items

  /** What every extracted item looks like. */
  predicate WellFormedItem(item: string) {
    && item != ""
    && !IsMarker(item[0])
    && !IsSpace(item[|item| - 1])
    && !StartsWithFiller(item)
    && !IsDisclaimer(item)
  }

  /** The second `strip()` of main.py:69 changes nothing: the cleaned line already has
      no whitespace at either end. */
  lemma StripCleanLine(line: string)
    ensures var c := CleanLine(line);
      (c == [] || (!IsMarker(c[0]) && !IsSpace(c[|c| - 1]))) && Strip(c) == c
  {
    var s := Strip(line);
    var c := CleanLine(line);
    StripShape(line);
    if c != [] {
      assert c[|c| - 1] == s[|s| - 1];
    }
    StripNoop(c);
  }

  /** The indices of the lines whose cleaned form passes `keep`, in order. */
  function KeptIndices(lines: seq<string>, clean: string -> string, keep: string -> bool): seq<nat> {
    if lines == [] then []
    else
      var before := KeptIndices(lines[..|lines| - 1], clean, keep);
      if keep(clean(lines[|lines| - 1])) then before + [|lines| - 1] else before
  }

  /** The kept indices are in range, strictly increasing, and exactly the lines whose
      cleaned form passes `keep`. */
  lemma {:induction false} KeptIndicesExact(lines: seq<string>, clean: string -> string, keep: string -> bool)
    ensures var idx := KeptIndices(lines, clean, keep);
      && |idx| <= |lines|
      && (forall k :: 0 <= k < |idx| ==> idx[k] < |lines| && keep(clean(lines[idx[k]])))
      && (forall k, l :: 0 <= k < l < |idx| ==> idx[k] < idx[l])
      && (forall j :: 0 <= j < |lines| && j !in idx ==> !keep(clean(lines[j])))
  {
    if lines != [] {
      var n := |lines| - 1;
      var init := lines[..n];
      KeptIndicesExact(init, clean, keep);
      var idx0, idx := KeptIndices(init, clean, keep), KeptIndices(lines, clean, keep);
      assert forall j :: 0 <= j < n ==> init[j] == lines[j];
      if keep(clean(lines[n])) {
        assert idx == idx0 + [n];
      } else {
        assert idx == idx0;
      }
    }
  }

  /** Item `k` is the stripped cleaned line at the `k`-th kept index. */
  lemma {:induction false} CollectAtIndices(lines: seq<string>, clean: string -> string, keep: string -> bool)
    ensures var items, idx := Collect(lines, clean, keep), KeptIndices(lines, clean, keep);
      && |items| == |idx|
      && (forall k :: 0 <= k < |idx| ==> idx[k] < |lines| && items[k] == Strip(clean(lines[idx[k]])))
  {
    if lines != [] {
      var n := |lines| - 1;
      var init := lines[..n];
      CollectAtIndices(init, clean, keep);
      assert forall j :: 0 <= j < n ==> init[j] == lines[j];
    }
  }

  /** The extractor keeps line order: the items are the kept lines, cleaned and stripped,
      at strictly increasing line indices, and every line not among them fails the keep
      test. Hence there are never more items than lines. */
  lemma KeptItemsInOrder(lines: seq<string>)
    ensures var items, idx := KeptItems(lines), KeptIndices(lines, CleanLine, Keeps);
      && |items| == |idx| <= |lines|
      && (forall k :: 0 <= k < |idx| ==>
            idx[k] < |lines| && items[k] == CleanLine(lines[idx[k]]) && Keeps(items[k]))
      && (forall k, l :: 0 <= k < l < |idx| ==> idx[k] < idx[l])
      && (forall j :: 0 <= j < |lines| && j !in idx ==> !Keeps(CleanLine(lines[j])))
  {
    var items, idx := KeptItems(lines), KeptIndices(lines, CleanLine, Keeps);
    KeptIndicesExact(lines, CleanLine, Keeps);
    CollectAtIndices(lines, CleanLine, Keeps);
    forall k | 0 <= k < |idx| ensures items[k] == CleanLine(lines[idx[k]]) {
      StripCleanLine(lines[idx[k]]);
    }
  }

  /** Every item the extractor returns is non-empty, starts with neither a list marker nor
      a filler word, ends without whitespace and is not a disclaimer. */
  lemma KeptItemsWellFormed(lines: seq<string>)
    ensures forall k :: 0 <= k < |KeptItems(lines)| ==> WellFormedItem(KeptItems(lines)[k])
  {
    var items, idx := KeptItems(lines), KeptIndices(lines, CleanLine, Keeps);
    KeptItemsInOrder(lines);
    forall k | 0 <= k < |items| ensures WellFormedItem(items[k]) {
      StripCleanLine(lines[idx[k]]);
    }
  }

  lemma ListItemsWellFormed(text: string)
    ensures forall k :: 0 <= k < |ListItems(text)| ==> WellFormedItem(ListItems(text)[k])
  {
    KeptItemsWellFormed(SplitLines(ResponseContent(text)));
  }

  /** A line made of markers only (say "1984", or "- ") cleans to nothing and is dropped. */
  lemma MarkerOnlyLineDropped(lines: seq<string>, line: string)
    requires forall i :: 0 <= i < |line| ==> IsMarker(line[i])
    ensures CleanLine(line) == ""
    ensures KeptItems(lines + [line]) == KeptItems(lines)
  {
    var s := Strip(line);
    assert forall i :: 0 <= i < |s| ==> IsMarker(s[i]);
    assert (lines + [line])[..|lines|] == lines;
  }
}
