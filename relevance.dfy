/** The relevance step: one classifier call per candidate, in order, with a digest of the
    history titles in the prompt; a candidate is kept when the reply exists and its
    `is_relevant` is truthy. */
module Relevance {
  import opened Wrappers
  import opened Text
  import opened Papers
  import opened HistoryStore

  /** The text that stands in for an empty history in the prompt ("None. This is the first
      paper being analyzed."), written as two literals so that its first letter is visible
      to the verifier. */
  const FirstPaperNote := "None." + " This is the first paper being analyzed."

  /** One "- title" line per history record, in insertion order. */
  function TitleLines(h: History): seq<string>
    requires Valid(h)
  {
    seq(|h.order|, i requires 0 <= i < |h.order| => "- " + h.records[h.order[i]].title)
  }

  /** `history_summary` in `analyze_paper_with_history`: the title lines joined by
      newlines, or the first-paper note when that join is empty. */
  function HistorySummary(h: History): string
    requires Valid(h)
  {
    var joined := Join("\n", TitleLines(h));
    if joined == "" then FirstPaperNote else joined
  }

  /** The note appears exactly when the history is empty (no title line can make the
      join empty or equal to the note, since every line starts with "- "). */
  lemma HistorySummaryNote(h: History)
    requires Valid(h)
    ensures HistorySummary(h) == FirstPaperNote <==> h.records == map[]
    ensures HistorySummary(h) != ""
  {
    var lines := TitleLines(h);
    if h.order != [] {
      JoinStartsWithFirst("\n", lines);
      assert lines[0][0] == '-';
      assert Join("\n", lines)[0] == '-';
      assert FirstPaperNote[0] == "None."[0] == 'N';
      assert h.order[0] in h.records;
    } else {
      assert h.records.Keys == {};
    }
  }

  /** With single-line titles, the summary of a non-empty history lists one line per
      record, "- " and the title, in insertion order. */
  lemma HistorySummaryLines(h: History)
    requires Valid(h)
    requires h.records != map[]
    requires forall k :: k in h.records ==> '\n' !in h.records[k].title
    ensures Split(HistorySummary(h), '\n') == TitleLines(h)
  {
    var lines := TitleLines(h);
    assert h.order != [] by {
      var k :| k in h.records;
      assert k in h.order;
    }
    assert "\n" == ['\n'];
    forall i | 0 <= i < |lines| ensures '\n' !in lines[i] {
      assert h.order[i] in h.records;
      assert lines[i] == "- " + h.records[h.order[i]].title;
    }
    SplitJoin(lines, '\n');
    HistorySummaryNote(h);
  }

  /** The decoded classifier reply. `isRelevant` is the truthiness of
      `analysis.get('is_relevant')` (false when the key is missing); the other keys may be
      missing, because nothing checks the reply against its schema. */
  datatype Verdict = Verdict(
    isRelevant: bool,
    highlightsNovelty: Option<string>,
    whyRecommend: Option<string>,
    relevanceReason: Option<string>)

  /** What the classifier is asked: the history summary and the candidate's title and
      abstract. */
  datatype Prompt = Prompt(history: string, title: string, paperAbstract: string)

  /** The prompt for one candidate: the history digest, its title and its abstract. */
  function PromptFor(h: History, p: Paper): Prompt
    requires Valid(h)
  {
    Prompt(HistorySummary(h), p.title, p.summary)
  }

  /** A candidate with the reply attached (`paper['analysis'] = analysis`). */
  datatype Annotated = Annotated(paper: Paper, analysis: Verdict)

  /** `analysis and analysis.get('is_relevant')`: a reply came back and says relevant. */
  predicate Accepted(reply: Option<Verdict>)
  {
    reply.Some? && reply.value.isRelevant
  }

  /** The replies the classifier gives, one per candidate, in candidate order. */
  function Replies(cs: seq<Paper>, h: History, classify: Prompt -> Option<Verdict>): seq<Option<Verdict>>
    requires Valid(h)
  {
    seq(|cs|, i requires 0 <= i < |cs| => classify(PromptFor(h, cs[i])))
  }

  /** The relevant papers for given replies: the accepted candidates, annotated, in
      candidate order. */
  function KeepRelevant(cs: seq<Paper>, replies: seq<Option<Verdict>>): (r: seq<Annotated>)
    requires |replies| == |cs|
    ensures |r| <= |cs|
    ensures forall a :: a in r ==>
              && a.analysis.isRelevant
              && exists i :: 0 <= i < |cs| && cs[i] == a.paper && replies[i] == Some(a.analysis)
  {
    if cs == [] then []
    else
      var n := |cs| - 1;
      KeepRelevant(cs[..n], replies[..n])
        + (if Accepted(replies[n]) then [Annotated(cs[n], replies[n].value)] else [])
  }

  /** The positions of the accepted replies, in increasing order. */
  function AcceptedPositions(replies: seq<Option<Verdict>>): (idx: seq<nat>)
    ensures forall k :: 0 <= k < |idx| ==> idx[k] < |replies|
  {
    if replies == [] then []
    else
      var n := |replies| - 1;
      AcceptedPositions(replies[..n]) + (if Accepted(replies[n]) then [n] else [])
  }

  /** The accepted positions rise strictly, and a position is among them exactly when
      its reply exists and says relevant. */
  lemma {:induction false} AcceptedPositionsExactly(replies: seq<Option<Verdict>>)
    ensures var idx := AcceptedPositions(replies);
            && (forall k, l :: 0 <= k < l < |idx| ==> idx[k] < idx[l])
            && (forall i :: 0 <= i < |replies| ==> (i in idx <==> Accepted(replies[i])))
  {
    if replies != [] {
      var n := |replies| - 1;
      var init := replies[..n];
      AcceptedPositionsExactly(init);
      var idx0 := AcceptedPositions(init);
      assert forall k :: 0 <= k < |idx0| ==> idx0[k] < n;
      assert forall i :: 0 <= i < n ==> init[i] == replies[i];
    }
  }

  /** Selection, exactly: the relevant papers are the candidates at the accepted
      positions, in position order, each with its reply attached; with the lemma above,
      a failed (`None`) reply is never kept and an accepting one always is. */
  lemma {:induction false} KeepRelevantExactly(cs: seq<Paper>, replies: seq<Option<Verdict>>)
    requires |replies| == |cs|
    ensures var idx := AcceptedPositions(replies);
            var r := KeepRelevant(cs, replies);
            && |r| == |idx|
            && (forall k :: 0 <= k < |idx| ==> Accepted(replies[idx[k]]) && r[k] == Annotated(cs[idx[k]], replies[idx[k]].value))
  {
    if cs != [] {
      var n := |cs| - 1;
      var cs0, replies0 := cs[..n], replies[..n];
      KeepRelevantExactly(cs0, replies0);
      var idx0 := AcceptedPositions(replies0);
      var r0 := KeepRelevant(cs0, replies0);
      var idx := AcceptedPositions(replies);
      var r := KeepRelevant(cs, replies);
      var extra := Accepted(replies[n]);
      assert idx == idx0 + (if extra then [n] else []);
      assert r == r0 + (if extra then [Annotated(cs[n], replies[n].value)] else []);
      forall k | 0 <= k < |idx|
        ensures Accepted(replies[idx[k]]) && r[k] == Annotated(cs[idx[k]], replies[idx[k]].value)
      {
        if k < |idx0| {
          assert idx[k] == idx0[k] && r[k] == r0[k];
          assert cs0[idx0[k]] == cs[idx0[k]] && replies0[idx0[k]] == replies[idx0[k]];
        } else {
          assert idx[k] == n && r[k] == Annotated(cs[n], replies[n].value);
        }
      }
    }
  }

  /** Digest order: the relevant papers of a newest-first candidate list are newest first. */
  lemma {:induction false} KeepRelevantNewestFirst(cs: seq<Paper>, replies: seq<Option<Verdict>>)
    requires |replies| == |cs|
    requires NewestFirst(cs)
    ensures NewestFirst(PapersOf(KeepRelevant(cs, replies)))
  {
    if cs != [] {
      var n := |cs| - 1;
      var init := KeepRelevant(cs[..n], replies[..n]);
      KeepRelevantNewestFirst(cs[..n], replies[..n]);
      forall k | 0 <= k < |init| ensures init[k].paper.published >= cs[n].published {
        assert init[k] in init;
        var j :| 0 <= j < n && cs[..n][j] == init[k].paper;
      }
      assert PapersOf(KeepRelevant(cs, replies))
          == PapersOf(init) + (if Accepted(replies[n]) then [cs[n]] else []);
    }
  }

  /** The papers of annotated papers. */
  function PapersOf(r: seq<Annotated>): (ps: seq<Paper>)
    ensures |ps| == |r|
    ensures forall k :: 0 <= k < |r| ==> ps[k] == r[k].paper
  {
    seq(|r|, k requires 0 <= k < |r| => r[k].paper)
  }

  /** The loop at paper_agent.py:231-242: ask the classifier about each candidate in turn
      and keep the accepted ones. */
  method SelectRelevant(cs: seq<Paper>, h: History, classify: Prompt -> Option<Verdict>)
    returns (relevant: seq<Annotated>)
    requires Valid(h)
    ensures relevant == KeepRelevant(cs, Replies(cs, h, classify))
  {
    ghost var replies := Replies(cs, h, classify);
    relevant := [];
    for i := 0 to |cs|
      invariant relevant == KeepRelevant(cs[..i], replies[..i])
    {
      var analysis := classify(PromptFor(h, cs[i]));
      assert cs[..i + 1][..i] == cs[..i] && replies[..i + 1][..i] == replies[..i];
      if analysis.Some? && analysis.value.isRelevant {
        relevant := relevant + [Annotated(cs[i], analysis.value)];
      }
    }
    assert cs[..|cs|] == cs && replies[..|cs|] == replies;
  }
}
