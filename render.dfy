/** `format_email_html`, at the level of its structure: which kind of document, and which
    cards in which order. Styling, the date strings and the surrounding HTML text are not
    modelled. */
module Renderer {
  import opened Wrappers
  import opened Papers
  import opened Relevance

  /** One paper's card: title, publish time, authors, the two commentary texts and the
      link to the paper. */
  datatype Card = Card(
    title: string,
    published: int,
    authors: string,
    highlights: string,
    critique: string,
    link: string)

  /** The "Nothing to see here!" page, or the digest page with its cards. */
  datatype Document = NothingFound | Digest(cards: seq<Card>)

  /** The reply keys a card reads. */
  datatype ReplyKey = HighlightsNovelty | WhyRecommend

  /** The `KeyError` raised for the paper at `paper` when its reply lacks `key`. */
  datatype RenderError = KeyError(paper: nat, key: ReplyKey)

  /** The reply holds both keys a card reads. */
  predicate Complete(a: Annotated)
  {
    a.analysis.highlightsNovelty.Some? && a.analysis.whyRecommend.Some?
  }

  /** The card for one relevant paper. */
  function CardFor(a: Annotated): Card
    requires Complete(a)
  {
    Card(a.paper.title, a.paper.published, a.paper.authors,
         a.analysis.highlightsNovelty.value, a.analysis.whyRecommend.value, a.paper.id)
  }

  /** The card loop: cards built in paper order; the first paper whose reply lacks a key
      raises, `highlights_novelty` being read before `why_recommend`. */
  function Cards(ps: seq<Annotated>): (r: Result<seq<Card>, RenderError>)
  {
    if ps == [] then Ok([])
    else
      var n := |ps| - 1;
      match Cards(ps[..n])
      case Err(e) => Err(e)
      case Ok(cards) =>
        if ps[n].analysis.highlightsNovelty.None? then Err(KeyError(n, HighlightsNovelty))
        else if ps[n].analysis.whyRecommend.None? then Err(KeyError(n, WhyRecommend))
        else Ok(cards + [CardFor(ps[n])])
  }

  /** `format_email_html(papers)`. */
  function Render(ps: seq<Annotated>): Result<Document, RenderError>
  {
    if ps == [] then Ok(NothingFound)
    else match Cards(ps)
      case Ok(cards) => Ok(Digest(cards))
      case Err(e) => Err(e)
  }

  /** The card loop succeeds exactly when every reply is complete, and then gives one card
      per paper in paper order; when it fails, it names the first incomplete paper and
      the first key that paper lacks. */
  lemma {:induction false} CardsExactly(ps: seq<Annotated>)
    ensures Cards(ps).Ok? <==> forall i :: 0 <= i < |ps| ==> Complete(ps[i])
    ensures Cards(ps).Ok? ==>
              |Cards(ps).value| == |ps| && forall i :: 0 <= i < |ps| ==> Cards(ps).value[i] == CardFor(ps[i])
    ensures Cards(ps).Err? ==>
              var e := Cards(ps).error;
              && e.paper < |ps|
              && !Complete(ps[e.paper])
              && (forall j :: 0 <= j < e.paper ==> Complete(ps[j]))
              && (e.key == HighlightsNovelty <==> ps[e.paper].analysis.highlightsNovelty.None?)
  {
    if ps != [] {
      var n := |ps| - 1;
      CardsExactly(ps[..n]);
      assert forall i :: 0 <= i < n ==> ps[..n][i] == ps[i];
    }
  }

  /** The empty list, and only it, renders as the "nothing found" page; a non-empty list
      renders as a digest with one card per paper, in order, or raises at the first
      incomplete reply. */
  lemma RenderExactly(ps: seq<Annotated>)
    ensures Render(ps) == Ok(NothingFound) <==> ps == []
    ensures Render(ps).Ok? <==> forall i :: 0 <= i < |ps| ==> Complete(ps[i])
    ensures Render(ps).Ok? && ps != [] ==>
              && Render(ps).value.Digest?
              && |Render(ps).value.cards| == |ps|
              && forall i :: 0 <= i < |ps| ==> Render(ps).value.cards[i] == CardFor(ps[i])
    ensures Render(ps).Err? ==> Render(ps).error == Cards(ps).error
  {
    CardsExactly(ps);
  }
}
