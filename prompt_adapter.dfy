/** `LangRepl.PromptConfiguration.PromptAdapter`: maps the compiler's
    classified spans and completion items onto the prompt library's format
    spans and completion items. Only the fields the adapter reads or writes
    are modelled. */
module PromptConfiguration {
  import opened Wrappers
  import opened Ansi

  // ---------------------------------------------------------------------
  // Data
  // ---------------------------------------------------------------------

  /** A range of the input text. */
  datatype TextSpan = TextSpan(start: nat, length: nat)

  /** A compiler classification of a text range ("keyword", "string", ...). */
  datatype ClassifiedSpan = ClassifiedSpan(textSpan: TextSpan, classificationType: string)

  /** A range of the prompt text together with the format it is drawn in. */
  datatype FormatSpan = FormatSpan(start: nat, length: nat, formatting: ConsoleFormat)

  datatype CompletionItemRules = CompletionItemRules(matchPriority: int)

  /** A compiler completion candidate. */
  datatype CompletionItem = CompletionItem(
    span: TextSpan,
    displayTextPrefix: string,
    displayText: string,
    displayTextSuffix: string,
    rules: CompletionItemRules)

  /** A candidate with its lazily evaluated description. The provider has
      the opaque type `D`: the adapter can only pass it along. */
  datatype CompletionItemWithDescription<D> =
    CompletionItemWithDescription(item: CompletionItem, descriptionProvider: D)

  /** A completion item as the prompt shows it. */
  datatype PromptCompletionItem<D> =
    PromptCompletionItem(startIndex: nat, replacementText: string, extendedDescription: D)

  // ---------------------------------------------------------------------
  // Classification colours
  // ---------------------------------------------------------------------

  /** The classification kinds the prompt colours. */
  const ColoredClassifications: set<string> := {
    "string", "number",
    "operator", "preprocessor keyword", "keyword", "keyword - control",
    "record class name", "class name", "struct name",
    "comment"}

  /** `PromptAdapter.ToColor`: the foreground format of a classification
      kind, or `null` (None) for a kind the prompt does not colour. The
      comparison is exact, so case matters. */
  function ToColor(classificationType: string): (format: Option<ConsoleFormat>)
    ensures format.Some? <==> classificationType in ColoredClassifications
  {
    match classificationType
    case "string" => Some(ConsoleFormat(Named(BrightYellow)))
    case "number" => Some(ConsoleFormat(Named(BrightBlue)))
    case "operator" => Some(ConsoleFormat(Named(Magenta)))
    case "preprocessor keyword" => Some(ConsoleFormat(Named(Magenta)))
    case "keyword" => Some(ConsoleFormat(Named(Magenta)))
    case "keyword - control" => Some(ConsoleFormat(Named(Magenta)))
    case "record class name" => Some(ConsoleFormat(Named(BrightCyan)))
    case "class name" => Some(ConsoleFormat(Named(BrightCyan)))
    case "struct name" => Some(ConsoleFormat(Named(BrightCyan)))
    case "comment" => Some(ConsoleFormat(Named(Cyan)))
    case _ => None
  }

  /** The table read backwards: which kinds get each colour. Every other
      kind, whatever its case or content, gets no format. */
  lemma ToColorTable(kind: string)
    ensures ToColor(kind) == Some(ConsoleFormat(Named(BrightYellow))) <==> kind == "string"
    ensures ToColor(kind) == Some(ConsoleFormat(Named(BrightBlue))) <==> kind == "number"
    ensures ToColor(kind) == Some(ConsoleFormat(Named(Magenta))) <==>
      kind in {"operator", "preprocessor keyword", "keyword", "keyword - control"}
    ensures ToColor(kind) == Some(ConsoleFormat(Named(BrightCyan))) <==>
      kind in {"record class name", "class name", "struct name"}
    ensures ToColor(kind) == Some(ConsoleFormat(Named(Cyan))) <==> kind == "comment"
  {
  }

  /** Unknown and differently cased kinds are not coloured. */
  lemma ToColorIsCaseSensitive()
    ensures ToColor("") == None
    ensures ToColor("Keyword") == None
    ensures ToColor("STRING") == None
    ensures ToColor("keyword") == Some(ConsoleFormat(Named(Magenta)))
  {
  }

  // ---------------------------------------------------------------------
  // Syntax highlighting
  // ---------------------------------------------------------------------

  /** Whether the prompt colours a classified span. */
  predicate IsColored(c: ClassifiedSpan)
    ensures IsColored(c) <==> c.classificationType in ColoredClassifications
  {
    ToColor(c.classificationType).Some?
  }

  /** The format span drawn for a coloured classified span. */
  function ToFormatSpan(c: ClassifiedSpan): (f: FormatSpan)
    requires IsColored(c)
    ensures f.start == c.textSpan.start && f.length == c.textSpan.length
    ensures Some(f.formatting) == ToColor(c.classificationType)
  {
    FormatSpan(c.textSpan.start, c.textSpan.length, ToColor(c.classificationType).value)
  }

  /** `PromptAdapter.AdaptSyntaxClassification`: each classified span becomes
      a format span with the same range and the colour of its kind, and the
      spans whose kind has no colour are dropped. */
  function AdaptSyntaxClassification(classifications: seq<ClassifiedSpan>): (spans: seq<FormatSpan>)
    ensures |spans| <= |classifications|
  {
    if classifications == [] then []
    else
      var c := classifications[0];
      var rest := AdaptSyntaxClassification(classifications[1..]);
      if IsColored(c) then [ToFormatSpan(c)] + rest else rest
  }

  /** The positions of the coloured spans among the first `n`, in increasing order. */
  function ColoredIndices(classifications: seq<ClassifiedSpan>, n: nat): (indices: seq<nat>)
    requires n <= |classifications|
    decreases n
  {
    if n == 0 then []
    else ColoredIndices(classifications, n - 1)
         + (if IsColored(classifications[n - 1]) then [n - 1] else [])
  }

  /** `ColoredIndices` lists, in strictly increasing order, exactly the
      positions below `n` whose span is coloured. */
  lemma {:induction false} ColoredIndicesSpec(classifications: seq<ClassifiedSpan>, n: nat)
    requires n <= |classifications|
    ensures var indices := ColoredIndices(classifications, n);
      (forall k :: 0 <= k < |indices| ==> indices[k] < n && IsColored(classifications[indices[k]]))
      && (forall k, l :: 0 <= k < l < |indices| ==> indices[k] < indices[l])
      && (forall i :: 0 <= i < n && IsColored(classifications[i]) ==> i in indices)
  {
    if n > 0 {
      ColoredIndicesSpec(classifications, n - 1);
    }
  }

  /** Adapting distributes over concatenation: each span is adapted on its own. */
  lemma {:induction false} AdaptSyntaxClassificationAppend(a: seq<ClassifiedSpan>, b: seq<ClassifiedSpan>)
    ensures AdaptSyntaxClassification(a + b)
         == AdaptSyntaxClassification(a) + AdaptSyntaxClassification(b)
  {
    if a != [] {
      assert (a + b)[1..] == a[1..] + b;
      AdaptSyntaxClassificationAppend(a[1..], b);
    } else {
      assert a + b == b;
    }
  }

  /** The adapter is a stable filter-map: its output is, in order, one format
      span for each coloured input span, with that span's range and colour. */
  lemma {:induction false} AdaptSyntaxClassificationIsFilterMap(classifications: seq<ClassifiedSpan>, n: nat)
    requires n <= |classifications|
    ensures var spans := AdaptSyntaxClassification(classifications[..n]);
      var indices := ColoredIndices(classifications, n);
      |spans| == |indices|
      && forall k :: 0 <= k < |spans| ==>
           indices[k] < n && IsColored(classifications[indices[k]])
           && spans[k] == ToFormatSpan(classifications[indices[k]])
  {
    ColoredIndicesSpec(classifications, n);
    if n > 0 {
      AdaptSyntaxClassificationIsFilterMap(classifications, n - 1);
      var last := classifications[n - 1];
      assert classifications[..n] == classifications[..n - 1] + [last];
      AdaptSyntaxClassificationAppend(classifications[..n - 1], [last]);
      assert AdaptSyntaxClassification([last])
          == if IsColored(last) then [ToFormatSpan(last)] else [];
    }
  }

  /** Every format span comes from an input span with the same range, and its
      format is never null; a span is dropped exactly when its kind has no colour. */
  lemma {:induction false} AdaptSyntaxClassificationSpans(classifications: seq<ClassifiedSpan>)
    ensures var spans := AdaptSyntaxClassification(classifications);
      (forall f :: f in spans ==>
         exists c :: c in classifications && IsColored(c) && f == ToFormatSpan(c))
      && (|spans| == |classifications| <==> forall c :: c in classifications ==> IsColored(c))
  {
    if classifications != [] {
      AdaptSyntaxClassificationSpans(classifications[1..]);
      var spans := AdaptSyntaxClassification(classifications);
      var rest := AdaptSyntaxClassification(classifications[1..]);
      forall f | f in spans
        ensures exists c :: c in classifications && IsColored(c) && f == ToFormatSpan(c)
      {
        if f in rest {
          var c :| c in classifications[1..] && IsColored(c) && f == ToFormatSpan(c);
          assert c in classifications;
        } else {
          assert IsColored(classifications[0]) && f == ToFormatSpan(classifications[0]);
        }
      }
      if forall c :: c in classifications ==> IsColored(c) {
        assert forall c :: c in classifications[1..] ==> c in classifications;
      }
      if !IsColored(classifications[0]) {
        assert |rest| <= |classifications[1..]|;
      }
    }
  }

  /** The worked case: a string, an unknown kind and a comment give two
      spans, yellow then cyan, in input order. */
  lemma AdaptSyntaxClassificationExample()
    ensures AdaptSyntaxClassification([
        ClassifiedSpan(TextSpan(0, 5), "string"),
        ClassifiedSpan(TextSpan(5, 2), "bogus"),
        ClassifiedSpan(TextSpan(7, 3), "comment")])
      == [FormatSpan(0, 5, ConsoleFormat(Named(BrightYellow))),
          FormatSpan(7, 3, ConsoleFormat(Named(Cyan)))]
    ensures AdaptSyntaxClassification([]) == []
  {
  }

  // ---------------------------------------------------------------------
  // Completions: `OrderByDescending` on the match priority
  // ---------------------------------------------------------------------

  function Priority<D>(c: CompletionItemWithDescription<D>): int {
    c.item.rules.matchPriority
  }

  predicate SortedByPriorityDescending<D>(s: seq<CompletionItemWithDescription<D>>) {
    forall i, j :: 0 <= i < j < |s| ==> Priority(s[i]) >= Priority(s[j])
  }

  /** The candidates of priority `p`, in their order in `s`. */
  function WithPriority<D>(s: seq<CompletionItemWithDescription<D>>, p: int)
    : (r: seq<CompletionItemWithDescription<D>>)
    ensures |r| <= |s|
  {
    if s == [] then []
    else (if Priority(s[0]) == p then [s[0]] else []) + WithPriority(s[1..], p)
  }

  /** What LINQ's `OrderByDescending` promises: `sorted` is non-increasing in
      priority, and for every priority the candidates having it appear in
      `sorted` exactly as they appear in `original`. The second half is
      stability; together the two make `sorted` a permutation of `original`
      and determine it. */
  ghost predicate IsStableSortByPriorityDescending<D>(
    sorted: seq<CompletionItemWithDescription<D>>,
    original: seq<CompletionItemWithDescription<D>>)
  {
    SortedByPriorityDescending(sorted)
    && forall p :: WithPriority(sorted, p) == WithPriority(original, p)
  }

  /** Places `c` after every candidate of at least its priority. */
  function InsertByPriority<D>(
    c: CompletionItemWithDescription<D>,
    sorted: seq<CompletionItemWithDescription<D>>)
    : (r: seq<CompletionItemWithDescription<D>>)
    ensures |r| == |sorted| + 1
  {
    if sorted == [] || Priority(c) > Priority(sorted[0]) then [c] + sorted
    else [sorted[0]] + InsertByPriority(c, sorted[1..])
  }

  /** `completions.OrderByDescending(i => i.Item.Rules.MatchPriority)`, as an
      insertion sort that takes the candidates in input order. */
  function OrderByPriorityDescending<D>(completions: seq<CompletionItemWithDescription<D>>)
    : (sorted: seq<CompletionItemWithDescription<D>>)
    ensures |sorted| == |completions|
  {
    if completions == [] then []
    else
      var n := |completions| - 1;
      InsertByPriority(completions[n], OrderByPriorityDescending(completions[..n]))
  }

  /** Inserting keeps every priority at most `bound` when `c` and `sorted` do. */
  lemma {:induction false} InsertByPriorityBounded<D>(
    c: CompletionItemWithDescription<D>,
    sorted: seq<CompletionItemWithDescription<D>>,
    bound: int)
    requires Priority(c) <= bound
    requires forall i :: 0 <= i < |sorted| ==> Priority(sorted[i]) <= bound
    ensures forall i :: 0 <= i < |InsertByPriority(c, sorted)| ==>
      Priority(InsertByPriority(c, sorted)[i]) <= bound
  {
    if sorted != [] && Priority(c) <= Priority(sorted[0]) {
      var rest := InsertByPriority(c, sorted[1..]);
      InsertByPriorityBounded(c, sorted[1..], bound);
      var r := InsertByPriority(c, sorted);
      assert r == [sorted[0]] + rest;
      forall i | 0 < i < |r|
        ensures Priority(r[i]) <= bound
      {
        assert r[i] == rest[i - 1];
      }
    }
  }

  /** Inserting into a sorted sequence keeps it sorted. */
  lemma {:induction false} InsertByPrioritySorted<D>(
    c: CompletionItemWithDescription<D>,
    sorted: seq<CompletionItemWithDescription<D>>)
    requires SortedByPriorityDescending(sorted)
    ensures SortedByPriorityDescending(InsertByPriority(c, sorted))
  {
    if sorted != [] && Priority(c) <= Priority(sorted[0]) {
      var tail := sorted[1..];
      InsertByPrioritySorted(c, tail);
      InsertByPriorityBounded(c, tail, Priority(sorted[0]));
      var rest := InsertByPriority(c, tail);
      var r := InsertByPriority(c, sorted);
      assert r == [sorted[0]] + rest;
      forall i, j | 0 <= i < j < |r|
        ensures Priority(r[i]) >= Priority(r[j])
      {
        assert r[j] == rest[j - 1];
        if i > 0 { assert r[i] == rest[i - 1]; }
      }
    }
  }

  /** No candidate of a sequence whose priorities all stay below `p` has priority `p`. */
  lemma {:induction false} WithPriorityNone<D>(s: seq<CompletionItemWithDescription<D>>, p: int)
    requires forall i :: 0 <= i < |s| ==> Priority(s[i]) < p
    ensures WithPriority(s, p) == []
  {
    if s != [] {
      WithPriorityNone(s[1..], p);
    }
  }

  /** Selecting by priority distributes over appending one candidate. */
  lemma {:induction false} WithPrioritySnoc<D>(
    s: seq<CompletionItemWithDescription<D>>,
    c: CompletionItemWithDescription<D>,
    p: int)
    ensures WithPriority(s + [c], p)
         == WithPriority(s, p) + (if Priority(c) == p then [c] else [])
  {
    if s == [] {
      assert [] + [c] == [c];
    } else {
      assert (s + [c])[1..] == s[1..] + [c];
      WithPrioritySnoc(s[1..], c, p);
    }
  }

  /** Inserting `c` puts it after every candidate of its own priority. */
  lemma {:induction false} InsertByPriorityStable<D>(
    c: CompletionItemWithDescription<D>,
    sorted: seq<CompletionItemWithDescription<D>>,
    p: int)
    requires SortedByPriorityDescending(sorted)
    ensures WithPriority(InsertByPriority(c, sorted), p)
         == WithPriority(sorted, p) + (if Priority(c) == p then [c] else [])
  {
    var r := InsertByPriority(c, sorted);
    if sorted == [] || Priority(c) > Priority(sorted[0]) {
      assert r[1..] == sorted;
      if Priority(c) == p {
        WithPriorityNone(sorted, p);
      }
    } else {
      assert r[1..] == InsertByPriority(c, sorted[1..]);
      InsertByPriorityStable(c, sorted[1..], p);
    }
  }

  /** The model of `OrderByDescending` meets its promise. */
  lemma {:induction false} OrderByPriorityDescendingIsStableSort<D>(
    completions: seq<CompletionItemWithDescription<D>>)
    ensures IsStableSortByPriorityDescending(OrderByPriorityDescending(completions), completions)
  {
    if completions != [] {
      var n := |completions| - 1;
      var last := completions[n];
      var prefix := completions[..n];
      OrderByPriorityDescendingIsStableSort(prefix);
      InsertByPrioritySorted(last, OrderByPriorityDescending(prefix));
      assert completions == prefix + [last];
      forall p
        ensures WithPriority(OrderByPriorityDescending(completions), p)
             == WithPriority(completions, p)
      {
        InsertByPriorityStable(last, OrderByPriorityDescending(prefix), p);
        WithPrioritySnoc(prefix, last, p);
      }
    }
  }

  /** Inserting adds exactly the one candidate. */
  lemma {:induction false} InsertByPriorityPermutes<D>(
    c: CompletionItemWithDescription<D>,
    sorted: seq<CompletionItemWithDescription<D>>)
    ensures multiset(InsertByPriority(c, sorted)) == multiset(sorted) + multiset{c}
  {
    if sorted != [] && Priority(c) <= Priority(sorted[0]) {
      InsertByPriorityPermutes(c, sorted[1..]);
      assert sorted == [sorted[0]] + sorted[1..];
    }
  }

  /** Ordering only rearranges: the result is a permutation of the input. */
  lemma {:induction false} OrderByPriorityDescendingPermutes<D>(
    completions: seq<CompletionItemWithDescription<D>>)
    ensures multiset(OrderByPriorityDescending(completions)) == multiset(completions)
  {
    if completions != [] {
      var n := |completions| - 1;
      OrderByPriorityDescendingPermutes(completions[..n]);
      InsertByPriorityPermutes(completions[n], OrderByPriorityDescending(completions[..n]));
      assert completions == completions[..n] + [completions[n]];
    }
  }

  /** A candidate selected by priority `p` has priority `p`. */
  lemma {:induction false} WithPriorityHasPriority<D>(
    s: seq<CompletionItemWithDescription<D>>, p: int, k: nat)
    requires k < |WithPriority(s, p)|
    ensures Priority(WithPriority(s, p)[k]) == p
  {
    if s != [] {
      if Priority(s[0]) == p {
        if k > 0 { WithPriorityHasPriority(s[1..], p, k - 1); }
      } else {
        WithPriorityHasPriority(s[1..], p, k);
      }
    }
  }

  /** The stable descending order is unique: two sorted sequences with the
      same candidates of each priority, in the same order, are equal. */
  lemma {:induction false} StableSortIsUnique<D>(
    a: seq<CompletionItemWithDescription<D>>,
    b: seq<CompletionItemWithDescription<D>>)
    requires SortedByPriorityDescending(a) && SortedByPriorityDescending(b)
    requires forall p :: WithPriority(a, p) == WithPriority(b, p)
    ensures a == b
  {
    if a == [] || b == [] {
      if a != [] {
        WithPriorityOfHead(a);
        assert false;
      } else if b != [] {
        WithPriorityOfHead(b);
        assert false;
      }
    } else {
      var pa, pb := Priority(a[0]), Priority(b[0]);
      // the head of each has the highest priority present in both
      assert WithPriority(a, pa)[0] == a[0];
      PriorityOccursAt(b, pa);
      assert WithPriority(b, pb)[0] == b[0];
      PriorityOccursAt(a, pb);
      assert pa == pb;
      assert a[0] == b[0];
      forall p
        ensures WithPriority(a[1..], p) == WithPriority(b[1..], p)
      {
        WithPriorityTail(a, b, p);
      }
      StableSortIsUnique(a[1..], b[1..]);
      assert a == [a[0]] + a[1..] && b == [b[0]] + b[1..];
    }
  }

  /** The head of a sequence is selected by its own priority. */
  lemma WithPriorityOfHead<D>(s: seq<CompletionItemWithDescription<D>>)
    requires s != []
    ensures WithPriority(s, Priority(s[0])) != []
  {
  }

  /** Two sequences with the same head select the same candidates of priority
      `p` after it when they select the same ones overall. */
  lemma WithPriorityTail<D>(
    a: seq<CompletionItemWithDescription<D>>,
    b: seq<CompletionItemWithDescription<D>>,
    p: int)
    requires a != [] && b != [] && a[0] == b[0]
    requires WithPriority(a, p) == WithPriority(b, p)
    ensures WithPriority(a[1..], p) == WithPriority(b[1..], p)
  {
    var head := if Priority(a[0]) == p then [a[0]] else [];
    assert WithPriority(a, p) == head + WithPriority(a[1..], p);
    assert WithPriority(b, p) == head + WithPriority(b[1..], p);
    assert WithPriority(a[1..], p) == WithPriority(a, p)[|head|..];
    assert WithPriority(b[1..], p) == WithPriority(b, p)[|head|..];
  }

  /** A priority selected from a sorted sequence is at most the priority of its head. */
  lemma {:induction false} PriorityOccursAt<D>(s: seq<CompletionItemWithDescription<D>>, p: int)
    requires SortedByPriorityDescending(s) && s != []
    requires WithPriority(s, p) != []
    ensures p <= Priority(s[0])
  {
    if p > Priority(s[0]) {
      WithPriorityNone(s, p);
    }
  }

  /** Hence the model is the one ordering `OrderByDescending` can produce. */
  lemma OrderByPriorityDescendingIsUnique<D>(
    completions: seq<CompletionItemWithDescription<D>>,
    sorted: seq<CompletionItemWithDescription<D>>)
    requires IsStableSortByPriorityDescending(sorted, completions)
    ensures sorted == OrderByPriorityDescending(completions)
  {
    OrderByPriorityDescendingIsStableSort(completions);
    StableSortIsUnique(sorted, OrderByPriorityDescending(completions));
  }

  // ---------------------------------------------------------------------
  // Completions: the adapter
  // ---------------------------------------------------------------------

  /** The prompt's item for one candidate: it replaces from the candidate's
      start the text prefix + text + suffix, and keeps the description
      provider unevaluated. */
  function ToPromptCompletionItem<D>(r: CompletionItemWithDescription<D>): (p: PromptCompletionItem<D>)
    ensures p.startIndex == r.item.span.start
    ensures p.extendedDescription == r.descriptionProvider
    ensures var pre, text := |r.item.displayTextPrefix|, |r.item.displayText|;
      |p.replacementText| == pre + text + |r.item.displayTextSuffix| &&
      p.replacementText[..pre] == r.item.displayTextPrefix &&
      p.replacementText[pre..pre + text] == r.item.displayText &&
      p.replacementText[pre + text..] == r.item.displayTextSuffix
  {
    PromptCompletionItem(
      r.item.span.start,
      r.item.displayTextPrefix + r.item.displayText + r.item.displayTextSuffix,
      r.descriptionProvider)
  }

  /** The `Select` over the ordered candidates. */
  function ToPromptCompletionItems<D>(ordered: seq<CompletionItemWithDescription<D>>)
    : (items: seq<PromptCompletionItem<D>>)
    ensures |items| == |ordered|
    ensures forall k :: 0 <= k < |ordered| ==> items[k] == ToPromptCompletionItem(ordered[k])
  {
    if ordered == [] then []
    else [ToPromptCompletionItem(ordered[0])] + ToPromptCompletionItems(ordered[1..])
  }

  /** `PromptAdapter.AdaptCompletions`: the candidates ordered by descending
      match priority, then turned into prompt items. `ToArray` never yields
      null, so the `?? Array.Empty` fallback has no counterpart here. */
  function AdaptCompletions<D>(completions: seq<CompletionItemWithDescription<D>>)
    : (items: seq<PromptCompletionItem<D>>)
    ensures |items| == |completions|
  {
    ToPromptCompletionItems(OrderByPriorityDescending(completions))
  }

  /** What the adapter promises: item `k` is built from candidate `k` of the
      stable descending order, with start, replacement text and description
      taken from that candidate. */
  lemma AdaptCompletionsSpec<D>(completions: seq<CompletionItemWithDescription<D>>)
    ensures var ordered := OrderByPriorityDescending(completions);
      var items := AdaptCompletions(completions);
      IsStableSortByPriorityDescending(ordered, completions)
      && |items| == |completions|
      && forall k :: 0 <= k < |items| ==>
           items[k].startIndex == ordered[k].item.span.start
           && items[k].replacementText == ordered[k].item.displayTextPrefix
                + ordered[k].item.displayText + ordered[k].item.displayTextSuffix
           && items[k].extendedDescription == ordered[k].descriptionProvider
  {
    OrderByPriorityDescendingIsStableSort(completions);
  }

  /** Mapping after an insertion adds exactly the inserted candidate's item. */
  lemma {:induction false} ToPromptCompletionItemsInsert<D>(
    c: CompletionItemWithDescription<D>,
    sorted: seq<CompletionItemWithDescription<D>>)
    ensures multiset(ToPromptCompletionItems(InsertByPriority(c, sorted)))
         == multiset(ToPromptCompletionItems(sorted)) + multiset{ToPromptCompletionItem(c)}
  {
    var r := InsertByPriority(c, sorted);
    if sorted == [] || Priority(c) > Priority(sorted[0]) {
      assert r[1..] == sorted;
    } else {
      assert r[1..] == InsertByPriority(c, sorted[1..]);
      ToPromptCompletionItemsInsert(c, sorted[1..]);
    }
  }

  /** Mapping distributes over appending one candidate. */
  lemma {:induction false} ToPromptCompletionItemsSnoc<D>(
    s: seq<CompletionItemWithDescription<D>>,
    c: CompletionItemWithDescription<D>)
    ensures ToPromptCompletionItems(s + [c])
         == ToPromptCompletionItems(s) + [ToPromptCompletionItem(c)]
  {
  }

  /** One item per candidate: the items are a permutation of the items of
      the candidates in input order. */
  lemma {:induction false} AdaptCompletionsPermutes<D>(completions: seq<CompletionItemWithDescription<D>>)
    ensures multiset(AdaptCompletions(completions)) == multiset(ToPromptCompletionItems(completions))
  {
    if completions != [] {
      var n := |completions| - 1;
      var prefix, last := completions[..n], completions[n];
      var item := ToPromptCompletionItem(last);
      calc {
        multiset(AdaptCompletions(completions));
        multiset(ToPromptCompletionItems(InsertByPriority(last, OrderByPriorityDescending(prefix))));
        { ToPromptCompletionItemsInsert(last, OrderByPriorityDescending(prefix)); }
        multiset(AdaptCompletions(prefix)) + multiset{item};
        { AdaptCompletionsPermutes(prefix); }
        multiset(ToPromptCompletionItems(prefix)) + multiset{item};
        multiset(ToPromptCompletionItems(prefix) + [item]);
        { ToPromptCompletionItemsSnoc(prefix, last); }
        multiset(ToPromptCompletionItems(prefix + [last]));
        { assert prefix + [last] == completions; }
        multiset(ToPromptCompletionItems(completions));
      }
    }
  }

  /** Four candidates of priorities 3, 1, 3, 2; each carries its input
      position as its description provider, so the output shows the order. */
  function ExampleCompletions(): seq<CompletionItemWithDescription<int>> {
    [CompletionItemWithDescription(CompletionItem(TextSpan(4, 2), "Wr", "ite", "Line", CompletionItemRules(3)), 0),
     CompletionItemWithDescription(CompletionItem(TextSpan(4, 2), "", "b", "", CompletionItemRules(1)), 1),
     CompletionItemWithDescription(CompletionItem(TextSpan(4, 2), "", "c", "", CompletionItemRules(3)), 2),
     CompletionItemWithDescription(CompletionItem(TextSpan(4, 2), "", "d", "", CompletionItemRules(2)), 3)]
  }

  /** The example's candidates are ordered 0, 2, 3, 1. */
  lemma ExampleOrder()
    ensures var cs := ExampleCompletions();
      OrderByPriorityDescending(cs) == [cs[0], cs[2], cs[3], cs[1]]
  {
    var cs := ExampleCompletions();
    var c0, c1, c2, c3 := cs[0], cs[1], cs[2], cs[3];
    assert OrderByPriorityDescending([c0]) == [c0] by { assert [c0][..0] == []; }
    assert OrderByPriorityDescending([c0, c1]) == [c0, c1] by {
      assert [c0, c1][..1] == [c0] && [c0][1..] == [];
      assert InsertByPriority(c1, []) == [c1];
      assert InsertByPriority(c1, [c0]) == [c0, c1];
    }
    assert OrderByPriorityDescending([c0, c1, c2]) == [c0, c2, c1] by {
      assert [c0, c1, c2][..2] == [c0, c1] && [c0, c1][1..] == [c1];
      assert InsertByPriority(c2, [c1]) == [c2, c1];
      assert InsertByPriority(c2, [c0, c1]) == [c0, c2, c1];
    }
    assert cs[..3] == [c0, c1, c2];
    assert InsertByPriority(c3, [c0, c2, c1]) == [c0, c2, c3, c1] by {
      assert [c0, c2, c1][1..] == [c2, c1] && [c2, c1][1..] == [c1];
      assert InsertByPriority(c3, [c1]) == [c3, c1];
    }
  }

  /** The worked case: priorities 3, 1, 3, 2 come out in input order 0, 2, 3, 1,
      and "Wr" + "ite" + "Line" is replaced as "WriteLine". */
  lemma AdaptCompletionsExample()
    ensures var items := AdaptCompletions(ExampleCompletions());
      |items| == 4
      && items[0].extendedDescription == 0 && items[1].extendedDescription == 2
      && items[2].extendedDescription == 3 && items[3].extendedDescription == 1
      && items[0] == PromptCompletionItem(4, "WriteLine", 0)
    ensures AdaptCompletions<int>([]) == []
  {
    ExampleOrder();
    assert "Wr" + "ite" + "Line" == "WriteLine";
  }
}
