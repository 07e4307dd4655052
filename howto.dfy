/** The answer-retrieval library: harvest StackOverflow links from a Google result page,
    extract an answer from each linked page, and stream the answers in link order.
    The network (`get`) and the HTML parser with its CSS selectors are not modelled
    as code: a `Fetcher` gives, for a URL, either a request error or the fetched page
    as seen through the program's fixed selectors. */
module Howto {
  import opened Wrappers
  import opened Strings
  import Ordered

  /** The answer for one StackOverflow question. */
  datatype Answer = Answer(questionTitle: string, link: string, fullText: string, instruction: string)

  /** An element a selector matched: its `href` attribute, if it has one, and its
      descendant text nodes in document order (`ElementRef::text`). */
  datatype Element = Element(href: Option<string>, texts: seq<string>)

  /** One `.answer` element, seen through the selectors the program applies inside it:
      the `pre` matches, the `code` matches and the `.post-text>*` matches. */
  datatype AnswerBlock = AnswerBlock(pres: seq<Element>, codes: seq<Element>, postTexts: seq<Element>)

  /** A fetched page, seen through the program's selectors, each list in document order:
      `.r>a` (search result links), `#question-header>h1` (titles) and `.answer`. */
  datatype Document = Document(resultLinks: seq<Element>, titles: seq<Element>, answers: seq<AnswerBlock>)

  /** Why fetching or extracting failed. */
  datatype Error = RequestFailed(reason: string) | CannotParse {
    function Message(): string
    {
      match this
      case RequestFailed(reason) => reason
      case CannotParse => CannotParseMessage
    }
  }

  /** `get` followed by `Html::parse_document`: one GET of a URL. The request error,
      the non-success status and the body-read error all become `RequestFailed`. */
  type Fetcher = string -> Result<Document, Error>

  const SearchPrefix: string := "https://www.google.com/search?q=site:stackoverflow.com "
  const StackOverflowOrigin: string := "https://stackoverflow.com/"
  const VotesSuffix: string := "?answerstab=votes"
  const CannotParseMessage: string := "Cannot parse StackOverflow"

  // ---------------------------------------------------------------------------
  // URLs

  /** The Google search URL for `query`: the fixed site-restricted prefix followed by
      the query exactly as given (nothing is percent-encoded). */
  function SearchUrl(query: string): (url: string)
    ensures StartsWith(url, SearchPrefix)
    ensures url[|SearchPrefix|..] == query
  {
    SearchPrefix + query
  }

  /** Reads the query back out of a search URL. */
  function QueryOfSearchUrl(url: string): Option<string>
  {
    if StartsWith(url, SearchPrefix) then Some(url[|SearchPrefix|..]) else None
  }

  /** The query can be read back from the URL string: it is recovered from its search URL,
      and a URL string that yields a query is the search URL of that query. */
  lemma SearchUrlRoundTrip(query: string, url: string)
    ensures QueryOfSearchUrl(SearchUrl(query)) == Some(query)
    ensures QueryOfSearchUrl(url) == Some(query) ==> SearchUrl(query) == url
  {
    if QueryOfSearchUrl(url) == Some(query) {
      assert url == url[..|SearchPrefix|] + url[|SearchPrefix|..];
    }
  }

  /** The URL fetched for an answer page: the link with the votes-ordering parameter
      appended, so that the first `.answer` block is the highest voted. */
  function PageUrl(link: string): (url: string)
    ensures EndsWith(url, VotesSuffix)
    ensures |url| == |link| + |VotesSuffix| && url[..|link|] == link
  {
    link + VotesSuffix
  }

  /** Reads the link back out of a page URL. */
  function LinkOfPageUrl(url: string): Option<string>
  {
    if EndsWith(url, VotesSuffix) then Some(url[..|url| - |VotesSuffix|]) else None
  }

  lemma PageUrlRoundTrip(link: string, url: string)
    ensures LinkOfPageUrl(PageUrl(link)) == Some(link)
    ensures LinkOfPageUrl(url) == Some(link) ==> PageUrl(link) == url
  {
    if LinkOfPageUrl(url) == Some(link) {
      assert url == url[..|url| - |VotesSuffix|] + url[|url| - |VotesSuffix|..];
    }
  }

  // ---------------------------------------------------------------------------
  // Link harvesting

  /** The element has an `href` attribute pointing into StackOverflow. */
  predicate IsStackOverflowLink(e: Element)
  {
    e.href.Some? && StartsWith(e.href.value, StackOverflowOrigin)
  }

  /** The `filter_map`/`filter` pipeline over the `.r>a` matches: the `href` values that
      exist and start with the StackOverflow origin. */
  function HarvestLinks(elements: seq<Element>): (links: seq<string>)
    ensures |links| <= |elements|
    ensures forall l :: l in links ==> StartsWith(l, StackOverflowOrigin)
    ensures forall i :: 0 <= i < |elements| && IsStackOverflowLink(elements[i]) ==> elements[i].href.value in links
  {
    if elements == [] then []
    else
      var rest := HarvestLinks(elements[1..]);
      if IsStackOverflowLink(elements[0]) then [elements[0].href.value] + rest else rest
  }

  /** Harvesting the matches of a document split in two gives the links of the first part
      followed by the links of the second. */
  lemma {:induction false} HarvestAppend(a: seq<Element>, b: seq<Element>)
    ensures HarvestLinks(a + b) == HarvestLinks(a) + HarvestLinks(b)
  {
    if a == [] {
      assert a + b == b;
    } else {
      assert (a + b)[1..] == a[1..] + b;
      HarvestAppend(a[1..], b);
    }
  }

  /** Positions, in increasing order, of the elements that harvesting keeps. */
  ghost function KeptPositions(elements: seq<Element>): (ks: seq<nat>)
    ensures forall k :: 0 <= k < |ks| ==> ks[k] < |elements| && IsStackOverflowLink(elements[ks[k]])
    ensures forall k, m :: 0 <= k < m < |ks| ==> ks[k] < ks[m]
    ensures forall i :: 0 <= i < |elements| && IsStackOverflowLink(elements[i]) ==> i in ks
  {
    if elements == [] then []
    else
      var last := |elements| - 1;
      var init := KeptPositions(elements[..last]);
      assert forall k :: 0 <= k < |init| ==> elements[..last][init[k]] == elements[init[k]];
      init + (if IsStackOverflowLink(elements[last]) then [last] else [])
  }

  /** Harvesting a document with one more match at the end. */
  lemma HarvestSnoc(elements: seq<Element>)
    requires elements != []
    ensures var last := |elements| - 1;
      HarvestLinks(elements) == HarvestLinks(elements[..last])
        + (if IsStackOverflowLink(elements[last]) then [elements[last].href.value] else [])
  {
    var last := |elements| - 1;
    assert elements == elements[..last] + [elements[last]];
    HarvestAppend(elements[..last], [elements[last]]);
    assert [elements[last]][1..] == [];
  }

  /** The harvested links are exactly the `href`s of the kept elements, in document order. */
  lemma {:induction false} HarvestInDocumentOrder(elements: seq<Element>)
    ensures |HarvestLinks(elements)| == |KeptPositions(elements)|
    ensures forall k :: 0 <= k < |KeptPositions(elements)| ==>
      HarvestLinks(elements)[k] == elements[KeptPositions(elements)[k]].href.value
  {
    if elements != [] {
      var last := |elements| - 1;
      var init := elements[..last];
      HarvestInDocumentOrder(init);
      HarvestSnoc(elements);
      var links, ks := HarvestLinks(elements), KeptPositions(elements);
      var initLinks, initKs := HarvestLinks(init), KeptPositions(init);
      forall k | 0 <= k < |ks| ensures links[k] == elements[ks[k]].href.value {
        if k < |initKs| {
          assert links[k] == initLinks[k];
          assert init[initKs[k]] == elements[initKs[k]];
        }
      }
    }
  }

  /** `get_stackoverflow_links`: fetch the search page and harvest its result links. */
  function GetStackOverflowLinks(query: string, get: Fetcher): (r: Result<seq<string>, Error>)
    ensures r.Err? <==> get(SearchUrl(query)).Err?
    ensures r.Err? ==> r.error == get(SearchUrl(query)).error
    ensures r.Ok? ==> |r.value| <= |get(SearchUrl(query)).value.resultLinks|
    ensures r.Ok? ==> forall l :: l in r.value ==> StartsWith(l, StackOverflowOrigin)
  {
    match get(SearchUrl(query))
    case Err(e) => Err(e)
    case Ok(doc) => Ok(HarvestLinks(doc.resultLinks))
  }

  /** The links `howto` works on: a failed search gives no links (`unwrap_or_default`). */
  function Links(query: string, get: Fetcher): (links: seq<string>)
    ensures forall l :: l in links ==> StartsWith(l, StackOverflowOrigin)
    ensures get(SearchUrl(query)).Err? ==> links == []
  {
    GetStackOverflowLinks(query, get).GetOr([])
  }

  // ---------------------------------------------------------------------------
  // Answer extraction

  /** `text().collect::<Vec<_>>().join("")`: the element's text nodes joined with the
      empty separator. */
  function TextOf(e: Element): (text: string)
    ensures text == JoinWith(e.texts, "")
  {
    ConcatIsJoinWithEmpty(e.texts);
    Concat(e.texts)
  }

  /** The `.post-text>*` matches of a block, each flattened to its text nodes, joined. */
  function FullTextOf(block: AnswerBlock): string
  {
    Concat(Flatten(TextNodes(block.postTexts)))
  }

  function TextNodes(elements: seq<Element>): (r: seq<seq<string>>)
    ensures |r| == |elements|
    ensures forall i :: 0 <= i < |elements| ==> r[i] == elements[i].texts
  {
    if elements == [] then [] else [elements[0].texts] + TextNodes(elements[1..])
  }

  function TextsOf(elements: seq<Element>): (r: seq<string>)
    ensures |r| == |elements|
    ensures forall i :: 0 <= i < |elements| ==> r[i] == TextOf(elements[i])
  {
    if elements == [] then [] else [TextOf(elements[0])] + TextsOf(elements[1..])
  }

  /** What `get_answer` needs of a page: a title, an answer block, and in the first block
      a `pre` or a `code` element. */
  predicate Extractable(doc: Document)
  {
    && doc.titles != []
    && doc.answers != []
    && (doc.answers[0].pres != [] || doc.answers[0].codes != [])
  }

  /** `get_answer`: fetch the votes-ordered page of `link` and build the answer from the
      first title, the first answer block, its first `pre` (else its first `code`) and
      the text of its `.post-text>*` children. */
  function GetAnswer(link: string, get: Fetcher): (r: Result<Answer, Error>)
    ensures get(PageUrl(link)).Err? ==> r == Err(get(PageUrl(link)).error)
    ensures get(PageUrl(link)).Ok? ==> (r.Ok? <==> Extractable(get(PageUrl(link)).value))
    ensures get(PageUrl(link)).Ok? && r.Err? ==> r.error == CannotParse
    ensures r.Ok? ==>
      var doc := get(PageUrl(link)).value;
      var block := doc.answers[0];
      && r.value.link == link
      && r.value.questionTitle == TextOf(doc.titles[0])
      && r.value.instruction == (if block.pres != [] then TextOf(block.pres[0]) else TextOf(block.codes[0]))
      && r.value.fullText == Concat(TextsOf(block.postTexts))
  {
    match get(PageUrl(link))
    case Err(e) => Err(e)
    case Ok(doc) =>
      if doc.titles == [] then Err(CannotParse)
      else
        var questionTitle := TextOf(doc.titles[0]);
        if doc.answers == [] then Err(CannotParse)
        else
          var block := doc.answers[0];
          if block.pres == [] && block.codes == [] then Err(CannotParse)
          else
            var instruction := TextOf(if block.pres != [] then block.pres[0] else block.codes[0]);
            FullTextIsTextsInOrder(block.postTexts);
            Ok(Answer(questionTitle, link, FullTextOf(block), instruction))
  }

  /** Flattening the text nodes of the paragraphs and joining them equals joining the
      paragraphs' own texts, in document order. */
  lemma FullTextIsTextsInOrder(posts: seq<Element>)
    ensures Concat(Flatten(TextNodes(posts))) == Concat(TextsOf(posts))
  {
    ConcatFlatten(TextNodes(posts));
    assert ConcatEach(TextNodes(posts)) == TextsOf(posts);
  }

  /** A page with one title, one answer whose code block and paragraphs are known,
      each of them a single element. */
  function FixturePage(title: seq<string>, code: seq<string>, paragraphs: seq<seq<string>>): Document
  {
    Document([], [Element(None, title)],
      [AnswerBlock([Element(None, code)], [Element(None, code)], ElementsOf(paragraphs))])
  }

  function ElementsOf(texts: seq<seq<string>>): (r: seq<Element>)
    ensures |r| == |texts|
    ensures forall i :: 0 <= i < |texts| ==> r[i] == Element(None, texts[i])
  {
    if texts == [] then [] else [Element(None, texts[0])] + ElementsOf(texts[1..])
  }

  /** Extracting from a fixture page reproduces its title, its code block and its
      paragraph text exactly, and keeps the link as given (without the votes suffix). */
  lemma FixtureRoundTrip(link: string, title: seq<string>, code: seq<string>, paragraphs: seq<seq<string>>, get: Fetcher)
    requires get(PageUrl(link)) == Ok(FixturePage(title, code, paragraphs))
    ensures GetAnswer(link, get) == Ok(Answer(Concat(title), link, Concat(Flatten(paragraphs)), Concat(code)))
  {
    var posts := ElementsOf(paragraphs);
    assert TextNodes(posts) == paragraphs;
  }

  /** The answer depends on nothing but what was fetched for the page URL of the link. */
  lemma GetAnswerReadsOnlyPageUrl(link: string, get1: Fetcher, get2: Fetcher)
    requires get1(PageUrl(link)) == get2(PageUrl(link))
    ensures GetAnswer(link, get1) == GetAnswer(link, get2)
  {
  }

  // ---------------------------------------------------------------------------
  // Streams of answers

  /** The per-link step of the streams, `|link| get_answer(&link).await.ok()`. */
  type Extractor = string -> Option<Answer>

  function ExtractWith(get: Fetcher): (extract: Extractor)
    ensures forall link :: extract(link).Some? <==> GetAnswer(link, get).Ok?
    ensures forall link :: extract(link).Some? ==> extract(link).value.link == link
  {
    link => GetAnswer(link, get).ToOption()
  }

  /** A successful extraction is an answer for the link it was asked about. */
  lemma ExtractionKeepsLink(link: string, get: Fetcher)
    ensures ExtractWith(get)(link).Some? ==>
      ExtractWith(get)(link).value.link == link && GetAnswer(link, get) == Ok(ExtractWith(get)(link).value)
  {
  }

  /** `stream::iter(links).filter_map(extract)`: the answers of the links whose extraction
      succeeded, in link order. */
  function AnswersOf(links: seq<string>, extract: Extractor): (answers: seq<Answer>)
    ensures |answers| <= |links|
    ensures forall a :: a in answers ==> exists l :: l in links && extract(l) == Some(a)
  {
    if links == [] then []
    else
      var rest := AnswersOf(links[1..], extract);
      assert forall l :: l in links[1..] ==> l in links;
      match extract(links[0])
      case Some(a) => [a] + rest
      case None => rest
  }

  lemma {:induction false} AnswersOfAppend(a: seq<string>, b: seq<string>, extract: Extractor)
    ensures AnswersOf(a + b, extract) == AnswersOf(a, extract) + AnswersOf(b, extract)
  {
    if a == [] {
      assert a + b == b;
    } else {
      assert (a + b)[1..] == a[1..] + b;
      AnswersOfAppend(a[1..], b, extract);
    }
  }

  /** A single link yields its answer, or nothing when extraction fails. */
  lemma AnswersOfSingleton(link: string, extract: Extractor)
    ensures AnswersOf([link], extract) == (if extract(link).Some? then [extract(link).value] else [])
  {
    assert [link][1..] == [];
  }

  /** A link whose extraction fails is dropped and changes nothing about the links after
      it; a link whose extraction succeeds contributes exactly its answer, in place. */
  lemma FailedLinkIsDropped(before: seq<string>, link: string, after: seq<string>, extract: Extractor)
    ensures extract(link).None? ==>
      AnswersOf(before + [link] + after, extract) == AnswersOf(before, extract) + AnswersOf(after, extract)
    ensures extract(link).Some? ==>
      AnswersOf(before + [link] + after, extract) == AnswersOf(before, extract) + [extract(link).value] + AnswersOf(after, extract)
  {
    AnswersOfAppend(before + [link], after, extract);
    AnswersOfAppend(before, [link], extract);
    AnswersOfSingleton(link, extract);
  }

  /** `howto`: the answers of the harvested links, in harvest order. */
  function Howto(query: string, get: Fetcher): (answers: seq<Answer>)
    ensures |answers| <= |Links(query, get)|
    ensures forall a :: a in answers ==> exists l :: l in Links(query, get) && ExtractWith(get)(l) == Some(a)
  {
    AnswersOf(Links(query, get), ExtractWith(get))
  }

  /** A failed search yields an empty stream, not an error. */
  lemma HowtoOfFailedSearch(query: string, get: Fetcher)
    requires get(SearchUrl(query)).Err?
    ensures Howto(query, get) == []
  {
  }

  /** Every answer `howto` yields is the extraction of a harvested link, and its own link
      is that StackOverflow link. */
  lemma HowtoAnswersComeFromStackOverflow(query: string, get: Fetcher)
    ensures forall a :: a in Howto(query, get) ==>
      && a.link in Links(query, get)
      && StartsWith(a.link, StackOverflowOrigin)
      && GetAnswer(a.link, get) == Ok(a)
  {
    var links := Links(query, get);
    forall a | a in Howto(query, get)
      ensures a.link in links && StartsWith(a.link, StackOverflowOrigin) && GetAnswer(a.link, get) == Ok(a)
    {
      var l :| l in links && ExtractWith(get)(l) == Some(a);
      ExtractionKeepsLink(l, get);
    }
  }

  // ---------------------------------------------------------------------------
  // Prefetching

  /** The per-link outcomes, in link order: what is pushed into the `FuturesOrdered`. */
  function Outcomes(links: seq<string>, extract: Extractor): (r: seq<Option<Answer>>)
    ensures |r| == |links|
    ensures forall i :: 0 <= i < |links| ==> r[i] == extract(links[i])
  {
    if links == [] then [] else [extract(links[0])] + Outcomes(links[1..], extract)
  }

  /** `filter_map(future::ready)`: the present values, in order. */
  function Successes(os: seq<Option<Answer>>): (r: seq<Answer>)
    ensures |r| <= |os|
    ensures forall x :: x in r ==> Some(x) in os
  {
    if os == [] then []
    else
      var rest := Successes(os[1..]);
      assert forall x :: Some(x) in os[1..] ==> Some(x) in os;
      if os[0].Some? then [os[0].value] + rest else rest
  }

  /** Keeping the successful outcomes of the links is the `filter_map` of `howto`. */
  lemma {:induction false} SuccessesOfOutcomes(links: seq<string>, extract: Extractor)
    ensures Successes(Outcomes(links, extract)) == AnswersOf(links, extract)
  {
    if links != [] {
      SuccessesOfOutcomes(links[1..], extract);
      assert Outcomes(links, extract)[1..] == Outcomes(links[1..], extract);
    }
  }

  /** `links.split_off(n)` when there are at least `n` links, else no others: the prefetch
      window and the remaining links. */
  function PrefetchSplit(links: seq<string>, n: nat): (parts: (seq<string>, seq<string>))
    ensures parts.0 + parts.1 == links
    ensures |links| < n ==> parts.1 == []
    ensures |links| >= n ==> |parts.0| == n
  {
    if |links| < n then (links, []) else (links[..n], links[n..])
  }

  /** `prefetch_howto`: the first `n` links go into a `FuturesOrdered` and complete in the
      order `completion` gives (any order); the others follow one at a time. The stream
      it yields is the one `howto` yields for the same pages. */
  method PrefetchHowto(query: string, n: nat, get: Fetcher, completion: seq<nat>) returns (answers: seq<Answer>)
    requires Ordered.IsCompletionOrder(completion, |PrefetchSplit(Links(query, get), n).0|)
    ensures answers == Howto(query, get)
  {
    var extract := ExtractWith(get);
    var links := Links(query, get);
    var (prefetch, others) := PrefetchSplit(links, n);
    var delivered := Ordered.Deliver(Outcomes(prefetch, extract), completion);
    var prefetched := Successes(delivered);
    var rest := AnswersOf(others, extract);
    answers := prefetched + rest;
    SuccessesOfOutcomes(prefetch, extract);
    AnswersOfAppend(prefetch, others, extract);
  }
}
