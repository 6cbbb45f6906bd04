/** What the model yields for concrete inputs: list markers, filler and disclaimer lines,
    response tags, the similarity rules and the empty batch. */
module Scenarios {
  import opened Text
  import opened Extractor
  import opened Similarity
  import opened Canonicalizer
  import opened Aggregator

  /** Without a `<` the response tags cannot occur, so the whole text is the content. */
  lemma NoOpenTag(text: string)
    requires forall i :: 0 <= i < |text| ==> text[i] != '<'
    ensures ResponseContent(text) == text
  {
    forall i | 0 <= i && i + |OpenTag| <= |text|
      ensures !OccursAt(text, OpenTag, i)
    {
      assert text[i..i + |OpenTag|][0] != OpenTag[0];
    }
  }

  /** Text with neither a `<` nor a line break. */
  predicate Plain(t: string) {
    forall i :: 0 <= i < |t| ==> t[i] != '<' && t[i] != '\n'
  }

  lemma PlainConcat(a: string, b: string)
    requires Plain(a) && Plain(b)
    ensures Plain(a + b)
  {
    forall i | 0 <= i < |a + b| ensures (a + b)[i] != '<' && (a + b)[i] != '\n' {
      if i >= |a| {
        assert (a + b)[i] == b[i - |a|];
      }
    }
  }

  /** A one-line response without tags yields its cleaned line or nothing. */
  lemma OneLine(text: string)
    requires Plain(text)
    ensures ListItems(text) == if Keeps(CleanLine(text)) then [Strip(CleanLine(text))] else []
  {
    NoOpenTag(text);
    SplitNoNewline(text);
    assert [text][..0] == [];
    assert KeptItems([]) == [];
  }

  /** Dropping a leading run `p` of characters in the class, up to one outside it. */
  lemma {:induction false} LeadingRunOf(p: string, q: string, inRun: char -> bool)
    requires forall i :: 0 <= i < |p| ==> inRun(p[i])
    requires q != [] && !inRun(q[0])
    ensures LeadingRun(p + q, inRun) == |p|
  {
    if p != [] {
      LeadingRunOf(p[1..], q, inRun);
      assert (p + q)[1..] == p[1..] + q;
    }
  }

  /** No pattern that is longer than `s`, or as long but starting differently, occurs in it. */
  lemma NoneContained(s: string, pats: seq<string>)
    requires forall k :: 0 <= k < |pats| ==>
               |pats[k]| > |s| || (|pats[k]| == |s| && 0 < |s| && pats[k][0] != s[0])
    ensures !ContainsAny(s, pats)
  {
    ContainsAnyMeans(s, pats);
    forall k | 0 <= k < |pats| ensures !Contains(s, pats[k]) {
      if |pats[k]| == |s| {
        assert !OccursAt(s, pats[k], 0);
      }
    }
  }

  /** When every pattern is longer than `n`, or of length `n` and starting with `c`, a
      string shorter than `n`, or of length `n` not starting with `c`, contains none. */
  lemma NoneOfLength(s: string, pats: seq<string>, n: nat, c: char)
    requires 0 < n
    requires forall k :: 0 <= k < |pats| ==> |pats[k]| > n || (|pats[k]| == n && pats[k][0] == c)
    requires |s| < n || (|s| == n && s[0] != c)
    ensures !ContainsAny(s, pats)
  {
    NoneContained(s, pats);
  }

  lemma FixedDisclaimerLengths()
    ensures forall k :: 0 <= k < |FixedDisclaimers| ==>
              |FixedDisclaimers[k]| > 9 || (|FixedDisclaimers[k]| == 9 && FixedDisclaimers[k][0] == 'i')
  {
  }

  lemma ShortNoFixedPhrase(s: string)
    requires |s| < 9 || (|s| == 9 && s[0] != 'i')
    ensures !ContainsAny(s, FixedDisclaimers)
  {
    FixedDisclaimerLengths();
    NoneOfLength(s, FixedDisclaimers, 9, 'i');
  }

  lemma RefusalPhraseLengths()
    ensures forall p :: p in RefusalPhrases(Refusals, RefusedActs) ==> |p| >= 11
  {
    RefusalPhrasesMeans(Refusals, RefusedActs);
    forall p | p in RefusalPhrases(Refusals, RefusedActs) ensures |p| >= 11 {
      var v, a :| v in Refusals && a in RefusedActs && p == "i " + v + " " + a;
      assert |v| >= 4 && |a| >= 4;
    }
  }

  lemma ShortNoRefusal(s: string)
    requires |s| < 11
    ensures !ContainsAny(s, RefusalPhrases(Refusals, RefusedActs))
  {
    var phrases := RefusalPhrases(Refusals, RefusedActs);
    RefusalPhraseLengths();
    forall k | 0 <= k < |phrases| ensures |phrases[k]| > |s| {
      assert phrases[k] in phrases;
    }
    NoneContained(s, phrases);
  }

  /** A line whose lowercase form starts with none of the filler words' first letters
      (or with an `f` but too short for "following") has no filler prefix. */
  lemma NotFiller(w: string)
    requires w != [] && Lower(w)[0] != 'h' && Lower(w)[0] != 't' && (|w| < 9 || Lower(w)[0] != 'f')
    ensures !StartsWithFiller(w)
  {
    StartsWithAnyMeans(Lower(w), Fillers);
    forall k | 0 <= k < |Fillers| ensures !StartsWith(Lower(w), Fillers[k]) {
      assert Fillers[k][0] in {'h', 't', 'f'};
      if Fillers[k][0] == 'f' {
        assert |Fillers[k]| == 9;
      }
    }
  }

  lemma ShortNotSorry(s: string)
    requires |s| < 14
    ensures !SorryAiModel(s)
  {
  }

  /** Every disclaimer phrase is at least nine characters long, and the only one of nine,
      "i'm an ai", starts with an `i`: a shorter line is never a disclaimer. */
  lemma ShortNotDisclaimer(line: string)
    requires |line| < 9 || (|line| == 9 && Lower(line)[0] != 'i')
    ensures !IsDisclaimer(line)
  {
    ShortNoFixedPhrase(Lower(line));
    ShortNoRefusal(Lower(line));
    ShortNotSorry(Lower(line));
  }

  lemma MobyDickLine(s: string, marker: string, title: string)
    requires marker == "3. " && title == "Moby Dick" && s == marker + title
    ensures CleanLine(s) == title
  {
    assert s[0] == marker[0] && s[|s| - 1] == title[|title| - 1];
    StripNoop(s);
    LeadingRunOf(marker, title, IsMarker);
    assert s[|marker|..] == title;
  }

  lemma MobyDickKept(c: string)
    requires c == "Moby Dick"
    ensures Keeps(c) && Strip(c) == c
  {
    StripNoop(c);
    assert Lower(c)[0] == 'm';
    ShortNotDisclaimer(c);
    NotFiller(c);
  }

  /** The list marker "3. " is removed and the title kept. */
  lemma MobyDick(s: string)
    requires s == "3. " + "Moby Dick"
    ensures ListItems(s) == ["Moby Dick"]
  {
    assert Plain("3. ") && Plain("Moby Dick");
    PlainConcat("3. ", "Moby Dick");
    OneLine(s);
    MobyDickLine(s, "3. ", "Moby Dick");
    MobyDickKept("Moby Dick");
  }

  // ---------------------------------------------------------------------------
  // A title made of digits only

  lemma DigitsOnly(s: string)
    requires s == "1984"
    ensures forall i :: 0 <= i < |s| ==> s[i] != '<' && s[i] != '\n' && IsMarker(s[i])
  {
  }

  /** "1984" is all list-marker characters, so the line is cleaned away entirely. */
  lemma NineteenEightyFourDropped(s: string)
    requires s == "1984"
    ensures ListItems(s) == []
  {
    DigitsOnly(s);
    OneLine(s);
    MarkerOnlyLineDropped([], s);
  }

  /** An empty reply, which is also what a `None` message content comes to, yields no
      item. */
  lemma EmptyReply(s: string)
    requires s == ""
    ensures ListItems(s) == []
  {
    OneLine(s);
    MarkerOnlyLineDropped([], s);
  }

  // ---------------------------------------------------------------------------
  // A title starting with a filler word

  lemma ArtOfWarOneLine(s: string)
    requires s == "The Art of War"
    ensures forall i :: 0 <= i < |s| ==> s[i] != '<' && s[i] != '\n'
  {
  }

  lemma ArtOfWarFiller(s: string)
    requires s == "The Art of War"
    ensures StartsWithFiller(s)
  {
    assert StartsWith(Lower(s), Fillers[2]);
    StartsWithAnyMeans(Lower(s), Fillers);
  }

  lemma ArtOfWarClean(s: string)
    requires s == "The Art of War"
    ensures CleanLine(s) == s
  {
    StripNoop(s);
    LeadingRunOf("", s, IsMarker);
    assert "" + s == s;
  }

  /** A line starting with "The" is taken for a preface and dropped, title or not. */
  lemma ArtOfWarDropped(s: string)
    requires s == "The Art of War"
    ensures ListItems(s) == []
  {
    ArtOfWarOneLine(s);
    OneLine(s);
    ArtOfWarClean(s);
    ArtOfWarFiller(s);
  }

  // ---------------------------------------------------------------------------
  // A refusal

  lemma LowerSlice(s: string, a: nat, b: nat)
    requires a <= b <= |s|
    ensures Lower(s)[a..b] == Lower(s[a..b])
  {
  }

  lemma RefusalPieces(s: string, p1: string, p2: string, p3: string)
    requires p1 == "I'm sorry, " && p2 == "as an AI model" && p3 == " I cannot help with that."
    requires s == p1 + p2 + p3
    ensures Plain(s) && s[0] == 'I' && s[|s| - 1] == '.' && s[11..25] == p2
  {
    assert Plain(p1) && Plain(p2) && Plain(p3);
    PlainConcat(p1, p2);
    PlainConcat(p1 + p2, p3);
    assert s[11..25] == (p1 + p2 + p3)[|p1|..|p1| + |p2|];
  }

  lemma AsAnAiModel(t: string)
    requires t == "as an AI model"
    ensures Lower(t) == "as an ai model"
  {
  }

  lemma RefusalDisclaimer(s: string)
    requires |s| >= 25 && s[11..25] == "as an AI model"
    ensures IsDisclaimer(s)
  {
    LowerSlice(s, 11, 25);
    AsAnAiModel(s[11..25]);
    assert OccursAt(Lower(s), FixedDisclaimers[0], 11);
    ContainsAnyMeans(Lower(s), FixedDisclaimers);
  }

  /** A one-line disclaimer with nothing to strip or clean is dropped. */
  lemma PlainDisclaimerDropped(s: string)
    requires Plain(s) && s != [] && !IsSpace(s[0]) && !IsSpace(s[|s| - 1]) && !IsMarker(s[0])
    requires IsDisclaimer(s)
    ensures ListItems(s) == []
  {
    OneLine(s);
    StripNoop(s);
    LeadingRunOf("", s, IsMarker);
    assert "" + s == s;
  }

  /** A reply that only declines yields no items. */
  lemma RefusalDropped(s: string)
    requires s == "I'm sorry, " + "as an AI model" + " I cannot help with that."
    ensures ListItems(s) == []
  {
    RefusalPieces(s, "I'm sorry, ", "as an AI model", " I cannot help with that.");
    RefusalDisclaimer(s);
    PlainDisclaimerDropped(s);
  }

  // ---------------------------------------------------------------------------
  // A tagged reply

  /** A short line that starts with neither a marker nor the first letter of "here",
      "these" or "the", and ends without whitespace, is kept as it is ("following" is
      longer than the line). */
  lemma ShortItemKept(w: string)
    requires 0 < |w| < 9 && !IsMarker(w[0]) && !IsSpace(w[|w| - 1])
    requires Lower(w)[0] != 'h' && Lower(w)[0] != 't'
    ensures CleanLine(w) == w && Keeps(w) && Strip(w) == w
  {
    StripNoop(w);
    LeadingRunOf("", w, IsMarker);
    assert "" + w == w;
    ShortNotDisclaimer(w);
    NotFiller(w);
  }

  /** With the opening tag at the start, `re.search` takes the body up to the first
      closing tag. */
  lemma TaggedAtStart(text: string, n: nat)
    requires OccursAt(text, OpenTag, 0) && |OpenTag| <= n && OccursAt(text, CloseTag, n)
    requires forall q :: |OpenTag| <= q < n ==> !OccursAt(text, CloseTag, q)
    ensures ResponseContent(text) == Strip(text[|OpenTag|..n])
  {
    assert TaggedPair(text, 0, n);
    assert HasTaggedPair(text);
    var c := ResponseContent(text);
    assert exists i, j :: FirstTaggedPair(text, i, j) && c == Strip(text[i + |OpenTag|..j]);
    var i, j :| FirstTaggedPair(text, i, j) && c == Strip(text[i + |OpenTag|..j]);
    assert i == 0;
    assert j == n;
  }

  lemma TaggedBody(text: string, body: string, tail: string)
    requires body == "\nFoo\nBar\n"
    requires text == OpenTag + body + CloseTag + tail
    ensures ResponseContent(text) == Strip(body)
  {
    var n := |OpenTag| + |body|;
    assert text[..|OpenTag|] == OpenTag;
    assert text[|OpenTag|..n] == body;
    assert text[n..n + |CloseTag|] == CloseTag;
    forall q | |OpenTag| <= q < n ensures !OccursAt(text, CloseTag, q) {
      assert text[q] == body[q - |OpenTag|];
      if q + |CloseTag| <= |text| {
        assert text[q..q + |CloseTag|][0] == text[q];
      }
    }
    TaggedAtStart(text, n);
  }

  /** Stripping the tagged body removes exactly its first and last newline. */
  lemma StripBody(body: string, inner: string)
    requires inner == "Foo\nBar" && body == "\n" + inner + "\n"
    ensures Strip(body) == inner
  {
    LeadingRunOf("\n", inner + "\n", IsSpace);
    assert body == "\n" + (inner + "\n");
    var t := body[1..];
    assert t == inner + "\n";
    assert t[..|t| - 1] == inner;
    assert TrailingRun(inner, IsSpace) == 0;
  }

  /** The stripped body splits into its two lines. */
  lemma SplitBody(inner: string)
    requires inner == "Foo" + "\n" + "Bar"
    ensures SplitLines(inner) == ["Foo", "Bar"]
  {
    SplitPrefix("Foo", "Bar");
    SplitNoNewline("Bar");
  }

  lemma TaggedLines(body: string)
    requires body == "\nFoo\nBar\n"
    ensures SplitLines(Strip(body)) == ["Foo", "Bar"]
  {
    StripBody(body, "Foo\nBar");
    SplitBody("Foo\nBar");
  }

  lemma FooKept(w: string)
    requires w == "Foo"
    ensures CleanLine(w) == w && Keeps(w) && Strip(w) == w
  {
    ShortItemKept(w);
  }

  lemma BarKept(w: string)
    requires w == "Bar"
    ensures CleanLine(w) == w && Keeps(w) && Strip(w) == w
  {
    ShortItemKept(w);
  }

  /** A kept last line adds its item at the end. */
  lemma KeptSnoc(lines: seq<string>, line: string, clean: string -> string, keep: string -> bool)
    requires keep(clean(line))
    ensures Collect(lines + [line], clean, keep) == Collect(lines, clean, keep) + [Strip(clean(line))]
  {
    assert (lines + [line])[..|lines|] == lines;
  }

  /** Two kept lines give their two items, in order. */
  lemma TwoKept(a: string, b: string, clean: string -> string, keep: string -> bool)
    requires keep(clean(a)) && keep(clean(b))
    ensures Collect([a, b], clean, keep) == [Strip(clean(a)), Strip(clean(b))]
  {
    var one: seq<string> := [a];
    assert [] + [a] == one;
    KeptSnoc([], a, clean, keep);
    assert Collect(one, clean, keep) == [Strip(clean(a))];
    assert one + [b] == [a, b];
    KeptSnoc(one, b, clean, keep);
  }

  /** Only the tagged body counts; the junk after the closing tag is ignored. */
  lemma TaggedReply(text: string)
    requires text == OpenTag + "\nFoo\nBar\n" + CloseTag + "\ntrailing junk"
    ensures ListItems(text) == ["Foo", "Bar"]
  {
    TaggedBody(text, "\nFoo\nBar\n", "\ntrailing junk");
    TaggedLines("\nFoo\nBar\n");
    FooKept("Foo");
    BarKept("Bar");
    TwoKept("Foo", "Bar", CleanLine, Keeps);
  }

  // ---------------------------------------------------------------------------
  // Clustering

  lemma ArtOfWarLower(a: string, b: string)
    requires a == "The Art of War" && b == "Art of War"
    ensures Contains(Lower(a), Lower(b))
  {
    LowerSlice(a, 4, 14);
    assert a[4..14] == b;
    assert OccursAt(Lower(a), Lower(b), 4);
  }

  /** "Art of War" is contained in "The Art of War", so whatever `SequenceMatcher` says it
      joins the cluster the longer title founded. */
  lemma ArtOfWarMerges(a: string, b: string, matcher: Matcher)
    requires a == "The Art of War" && b == "Art of War"
    ensures AreItemsSimilar(a, b, matcher) && AreItemsSimilar(b, a, matcher)
    ensures var s1 := Assign(Empty, a, matcher).0;
      Assign(s1, b, matcher) == (CanonState([a], map[a := {a, b}]), a)
  {
    ArtOfWarLower(a, b);
    SimilarByContainment(a, b, matcher);
    SimilarByContainment(b, a, matcher);
    var s1 := Assign(Empty, a, matcher).0;
    assert s1 == CanonState([a], map[a := {a}]);
    assert MatchesKey(s1, a, b, matcher);
    assert FirstMatch(s1, b, matcher, 0) == Some(0);
    assert VariationsOf(s1, a) + {b} == {a, b};
    assert s1.variations[a := {a, b}] == map[a := {a, b}];
    assert Assign(s1, b, matcher).1 == a;
  }

  lemma SapiensLower(a: string, b: string)
    requires a == "Sapiens" && b == "1984"
    ensures !Contains(Lower(a), Lower(b)) && !Contains(Lower(b), Lower(a))
    ensures |Lower(a)| + |Lower(b)| == 11
  {
    forall i | 0 <= i <= |Lower(a)| - |Lower(b)| ensures !OccursAt(Lower(a), Lower(b), i) {
      assert Lower(b)[0] == '1';
      assert Lower(a)[i] != '1';
      assert Lower(a)[i..i + 4][0] == Lower(a)[i];
    }
  }

  /** "Sapiens" and "1984" share no character, so `SequenceMatcher` finds nothing in
      common and the two titles found separate clusters. */
  lemma SapiensAnd1984Apart(a: string, b: string, matcher: Matcher)
    requires a == "Sapiens" && b == "1984"
    requires matcher(Lower(a), Lower(b)) == 0 && matcher(Lower(b), Lower(a)) == 0
    ensures !AreItemsSimilar(a, b, matcher) && !AreItemsSimilar(b, a, matcher)
    ensures var s1 := Assign(Empty, a, matcher).0;
      Assign(s1, b, matcher) == (CanonState([a, b], map[a := {a}, b := {b}]), b)
  {
    SapiensLower(a, b);
    DissimilarBelowThreshold(a, b, matcher);
    DissimilarBelowThreshold(b, a, matcher);
    var s1 := Assign(Empty, a, matcher).0;
    assert s1 == CanonState([a], map[a := {a}]);
    assert !MatchesKey(s1, a, b, matcher);
    assert FirstMatch(s1, b, matcher, 0) == None;
    assert s1.keys + [b] == [a, b];
  }

  // ---------------------------------------------------------------------------
  // Aggregation

  /** No responses, no ranking. */
  lemma EmptyBatch(matcher: Matcher)
    ensures Analyze([], matcher) == ([], map[])
  {
  }

  lemma LowerFoo(a: string, b: string)
    requires a == "Foo" && b == "foo"
    ensures Lower(a) == Lower(b) == b
  {
  }

  lemma RepeatedText(text: string)
    requires text == "Foo\nfoo"
    ensures ResponseContent(text) == text && SplitLines(text) == ["Foo", "foo"]
  {
    assert text == "Foo" + "\n" + "foo";
    assert forall i :: 0 <= i < |text| ==> text[i] != '<';
    NoOpenTag(text);
    SplitPrefix("Foo", "foo");
    SplitNoNewline("foo");
  }

  lemma LowerFooKept(w: string)
    requires w == "foo"
    ensures CleanLine(w) == w && Keeps(w) && Strip(w) == w
  {
    LowerFoo("Foo", w);
    ShortItemKept(w);
  }

  lemma RepeatedLines(text: string)
    requires text == "Foo\nfoo"
    ensures ListItems(text) == ["Foo", "foo"]
  {
    RepeatedText(text);
    FooKept("Foo");
    LowerFooKept("foo");
    TwoKept("Foo", "foo", CleanLine, Keeps);
  }

  /** "foo" joins the cluster of "Foo", and the second mention in the same response is
      not counted again. */
  lemma RepeatedItemsCounted(a: string, b: string, model: string, matcher: Matcher)
    requires a == "Foo" && b == "foo"
    ensures CountItems(Pass(Empty, NoTally, {}), model, [a, b], matcher).tally
         == Tally(map[a := 1], [a], map[a := map[model := 1]])
  {
    LowerFoo(a, b);
    var p0 := Pass(Empty, NoTally, {});
    var s1 := CanonState([a], map[a := {a}]);
    assert FirstMatch(Empty, a, matcher, 0) == None;
    assert Empty.keys + [a] == [a];
    assert Assign(Empty, a, matcher) == (s1, a);
    var p1 := CountItem(p0, model, a, matcher);
    assert p1 == Pass(s1, Tally(map[a := 1], [a], map[a := map[model := 1]]), {a});
    assert a in VariationsOf(s1, a);
    assert AreItemsSimilar(b, a, matcher);
    assert MatchesKey(s1, a, b, matcher);
    assert FirstMatch(s1, b, matcher, 0) == Some(0);
    assert Assign(s1, b, matcher).1 == a;
    assert CountItem(p1, model, b, matcher).tally == p1.tally;
    assert [a][..0] == [];
    assert CountItems(p0, model, [a], matcher) == p1;
    assert [a, b][..1] == [a];
  }

  /** A response naming the same item twice, differently capitalised, counts it once. */
  lemma RepeatedInOneResponse(model: string, text: string, matcher: Matcher)
    requires text == "Foo\nfoo"
    ensures Analyze([Response(model, text)], matcher) == ([("Foo", 1)], map["Foo" := map[model := 1]])
  {
    RepeatedLines(text);
    RepeatedItemsCounted("Foo", "foo", model, matcher);
    var batch := [Response(model, text)];
    assert batch[..0] == [];
    assert Aggregate(batch[..0], matcher) == (Empty, NoTally);
    assert ListItems(batch[0].response) == ["Foo", "foo"];
    var t := Aggregate(batch, matcher).1;
    assert t == Tally(map["Foo" := 1], ["Foo"], map["Foo" := map[model := 1]]);
    assert Entries(t) == [("Foo", 1)];
  }
}
