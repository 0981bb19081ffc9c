/** `main`: load the history, fetch and filter the feed, cap the candidates, classify
    them, render the digest, and write the first few recommendations back to the
    history. */
module Agent {
  import opened Wrappers
  import opened Papers
  import opened HistoryStore
  import opened CandidateFilter
  import opened Relevance
  import opened Renderer

  /** `MAX_PAPER_ANALYZE`: at most this many candidates are classified per run. */
  const MaxPaperAnalyze := 15
  /** `MAX_PAPER_RECOMMEND`: at most this many relevant papers are written to the history. */
  const MaxPaperRecommend := 5

  /** The slice `s[:n]`. */
  function Take<T>(s: seq<T>, n: nat): (r: seq<T>)
    ensures r <= s
    ensures |r| == if |s| <= n then |s| else n
  {
    if |s| <= n then s else s[..n]
  }

  /** The history entry written for a recommended paper. */
  function RecordOf(a: Annotated): (string, Record)
  {
    (a.paper.id, Record(a.paper.title, a.paper.summary))
  }

  function RecordsOf(rs: seq<Annotated>): (kvs: seq<(string, Record)>)
    ensures |kvs| == |rs|
    ensures forall i :: 0 <= i < |rs| ==> kvs[i] == RecordOf(rs[i])
  {
    seq(|rs|, i requires 0 <= i < |rs| => RecordOf(rs[i]))
  }

  /** The history as saved at the end of a run, or `None` when nothing is saved: with no
      relevant paper the file is left alone; otherwise the first `MaxPaperRecommend`
      relevant papers are assigned into the history, in digest order, and it is saved. */
  function Recommend(h: History, relevant: seq<Annotated>): (saved: Option<History>)
    requires Valid(h)
    ensures saved.Some? <==> relevant != []
  {
    if relevant == [] then None
    else Some(PutAll(h, RecordsOf(Take(relevant, MaxPaperRecommend))))
  }

  /** The update at paper_agent.py:256-259. */
  method RecordRecommendations(h: History, relevant: seq<Annotated>) returns (saved: Option<History>)
    requires Valid(h)
    ensures saved == Recommend(h, relevant)
  {
    if relevant == [] {
      return None;
    }
    var pairs := RecordsOf(Take(relevant, MaxPaperRecommend));
    var history := h;
    for i := 0 to |pairs|
      invariant history == PutAll(h, pairs[..i])
    {
      var next := pairs[..i + 1];
      assert next[..i] == pairs[..i] && next[i] == pairs[i];
      history := Put(history, pairs[i].0, pairs[i].1);
      assert history == PutAll(h, next);
    }
    assert pairs[..|pairs|] == pairs;
    saved := Some(history);
  }

  /** The key set of the records written for some papers is their id set. */
  lemma RecordKeys(chosen: seq<Annotated>)
    ensures KeysOf(RecordsOf(chosen)) == Ids(PapersOf(chosen))
  {
  }


  /** The keys `Recommend` adds are the ids of the first `MaxPaperRecommend` relevant
      papers, and the records already there keep their values. */
  lemma RecommendKeys(h: History, relevant: seq<Annotated>)
    requires Valid(h)
    requires relevant != []
    ensures var top := PapersOf(Take(relevant, MaxPaperRecommend));
            var saved := Recommend(h, relevant).value;
            && saved.records.Keys == h.records.Keys + Ids(top)
            && (forall k :: k in h.records && k !in Ids(top) ==> saved.records[k] == h.records[k])
  {
    var chosen := Take(relevant, MaxPaperRecommend);
    var pairs := RecordsOf(chosen);
    RecordKeys(chosen);
    PutAllKeys(h, pairs);
    forall k | k in h.records && k !in Ids(PapersOf(chosen))
      ensures PutAll(h, pairs).records[k] == h.records[k]
    {
      PutAllKeeps(h, pairs, k);
    }
  }

  /** The keys of the records written for some papers, in order, are their ids. */
  lemma RecordKeyList(chosen: seq<Annotated>)
    ensures var top := PapersOf(chosen);
            KeyList(RecordsOf(chosen)) == seq(|top|, i requires 0 <= i < |top| => top[i].id)
  {
  }

  /** When the ids of the first `MaxPaperRecommend` relevant papers are new and distinct,
      `Recommend` appends them in digest order, each with its paper's title and summary. */
  lemma RecommendAppends(h: History, relevant: seq<Annotated>)
    requires Valid(h)
    requires relevant != []
    requires var top := PapersOf(Take(relevant, MaxPaperRecommend));
             && (forall i :: 0 <= i < |top| ==> top[i].id !in h.records)
             && (forall i, j :: 0 <= i < j < |top| ==> top[i].id != top[j].id)
    ensures var top := PapersOf(Take(relevant, MaxPaperRecommend));
            var saved := Recommend(h, relevant).value;
            && saved.order == h.order + seq(|top|, i requires 0 <= i < |top| => top[i].id)
            && forall i :: 0 <= i < |top| ==>
                 top[i].id in saved.records && saved.records[top[i].id] == Record(top[i].title, top[i].summary)
  {
    var chosen := Take(relevant, MaxPaperRecommend);
    var top := PapersOf(chosen);
    var pairs := RecordsOf(chosen);
    PutAllFreshOrder(h, pairs);
    RecordKeyList(chosen);
    forall i | 0 <= i < |top|
      ensures top[i].id in PutAll(h, pairs).records
      ensures PutAll(h, pairs).records[top[i].id] == Record(top[i].title, top[i].summary)
    {
      PutAllLastWins(h, pairs, i);
    }
  }

  /** What the fetch returns: a transport error, or the feed's entries in delivered order. */
  datatype Feed = FetchFailed | Fetched(entries: seq<RawEntry>)

  /** The exceptions the catch-all handler at the end of `main` swallows. */
  datatype Crash = BadEntry(scan: ScanError) | BadReply(render: RenderError)

  /** How a run ends: the fetch failed; an exception ended it before the history was
      touched; or it completed, producing the email body and, when something was
      recommended, the history it saved. */
  datatype Outcome =
    | FetchError
    | Crashed(crash: Crash)
    | Completed(email: Document, saved: Option<History>)

  /** `parse_and_filter_papers(xml, history.keys())[:MAX_PAPER_ANALYZE]`. */
  function Candidates(h: History, es: seq<RawEntry>, now: int): (r: Result<seq<Paper>, ScanError>)
    ensures r.Ok? <==> Filtered(es, h.records.Keys, Window(now)).Ok?
    ensures r.Err? ==> r.error == Filtered(es, h.records.Keys, Window(now)).error
    ensures r.Ok? ==>
              var ps := Filtered(es, h.records.Keys, Window(now)).value;
              && r.value <= ps
              && |r.value| == if |ps| <= MaxPaperAnalyze then |ps| else MaxPaperAnalyze
  {
    match Filtered(es, h.records.Keys, Window(now))
    case Ok(ps) => Ok(Take(ps, MaxPaperAnalyze))
    case Err(e) => Err(e)
  }

  /** The relevant papers among the candidates, given the classifier. */
  function Relevant(h: History, cs: seq<Paper>, classify: Prompt -> Option<Verdict>): seq<Annotated>
    requires Valid(h)
  {
    KeepRelevant(cs, Replies(cs, h, classify))
  }

  /** One run of `main`, with the stored history, the fetch result, the clock reading and
      the classifier as inputs. */
  function RunSpec(stored: StoredHistory, feed: Feed, now: int, classify: Prompt -> Option<Verdict>): Outcome
  {
    var h := Load(stored);
    match feed
    case FetchFailed => FetchError
    case Fetched(es) =>
      match Candidates(h, es, now)
      case Err(e) => Crashed(BadEntry(e))
      case Ok(cs) =>
        var relevant := Relevant(h, cs, classify);
        match Render(relevant)
        case Err(e) => Crashed(BadReply(e))
        case Ok(email) => Completed(email, Recommend(h, relevant))
  }

  /** `main`. Sending the email sits between rendering and the history update; it cannot
      end the run and is not modelled. */
  method Run(stored: StoredHistory, feed: Feed, now: int, classify: Prompt -> Option<Verdict>)
    returns (outcome: Outcome)
    ensures outcome == RunSpec(stored, feed, now, classify)
  {
    var history := Load(stored);
    if feed.FetchFailed? {
      return FetchError;
    }
    var filtered := ParseAndFilter(feed.entries, history.records.Keys, now);
    if filtered.Err? {
      return Crashed(BadEntry(filtered.error));
    }
    var candidates := Take(filtered.value, MaxPaperAnalyze);
    var relevant := SelectRelevant(candidates, history, classify);
    var email := Render(relevant);
    if email.Err? {
      return Crashed(BadReply(email.error));
    }
    var saved := RecordRecommendations(history, relevant);
    outcome := Completed(email.value, saved);
  }

  /** Every relevant paper is new to the history the run started from. */
  lemma RelevantAreNew(h: History, es: seq<RawEntry>, now: int, classify: Prompt -> Option<Verdict>)
    requires Valid(h)
    requires Candidates(h, es, now).Ok?
    ensures forall a :: a in Relevant(h, Candidates(h, es, now).value, classify) ==> a.paper.id !in h.records
  {
    var seen := h.records.Keys;
    FilteredGuarantees(es, seen, Window(now));
    var cs := Candidates(h, es, now).value;
    var ps := Filtered(es, seen, Window(now)).value;
    forall a | a in Relevant(h, cs, classify) ensures a.paper.id !in h.records {
      assert a.paper in cs;
      var i :| 0 <= i < |cs| && cs[i] == a.paper;
      assert ps[i] == a.paper;
    }
  }

  /** The asymmetry between digest and history: a completed run shows every relevant
      paper in the digest (or the "nothing found" page when there is none), but saves the
      history only when there is one, adding exactly the ids of the first
      `MaxPaperRecommend` of them; a relevant paper past that cap is left out of the saved
      history, so a later run may admit it again. */
  lemma RunAsymmetry(stored: StoredHistory, es: seq<RawEntry>, now: int, classify: Prompt -> Option<Verdict>)
    requires RunSpec(stored, Fetched(es), now, classify).Completed?
    ensures Candidates(Load(stored), es, now).Ok?
    ensures var h := Load(stored);
            var relevant := Relevant(h, Candidates(h, es, now).value, classify);
            var top := PapersOf(Take(relevant, MaxPaperRecommend));
            var outcome := RunSpec(stored, Fetched(es), now, classify);
            && (outcome.email == NothingFound <==> relevant == [])
            && (relevant != [] ==>
                  && outcome.email.Digest?
                  && |outcome.email.cards| == |relevant|
                  && forall i :: 0 <= i < |relevant| ==> Complete(relevant[i]) && outcome.email.cards[i] == CardFor(relevant[i]))
            && (outcome.saved.Some? <==> relevant != [])
            && (outcome.saved.Some? ==>
                  && outcome.saved.value.records.Keys == h.records.Keys + Ids(top)
                  && forall k :: MaxPaperRecommend <= k < |relevant| && relevant[k].paper.id !in Ids(top) ==>
                       relevant[k].paper.id !in outcome.saved.value.records)
  {
    var h := Load(stored);
    var cs := Candidates(h, es, now).value;
    var relevant := Relevant(h, cs, classify);
    RenderExactly(relevant);
    if relevant != [] {
      RecommendKeys(h, relevant);
      RelevantAreNew(h, es, now, classify);
      forall k | MaxPaperRecommend <= k < |relevant|
        ensures relevant[k].paper.id !in h.records
      {
        assert relevant[k] in relevant;
      }
    }
  }

  /** No repeats: after a run that saved the history, a later run against that history
      never admits a paper the first run wrote to it. */
  lemma NoRepeatAfterSave(stored: StoredHistory, es: seq<RawEntry>, now: int, classify: Prompt -> Option<Verdict>,
                          laterEntries: seq<RawEntry>, later: int)
    requires RunSpec(stored, Fetched(es), now, classify).Completed?
    requires RunSpec(stored, Fetched(es), now, classify).saved.Some?
    requires Candidates(RunSpec(stored, Fetched(es), now, classify).saved.value, laterEntries, later).Ok?
    ensures var h := Load(stored);
            var relevant := Relevant(h, Candidates(h, es, now).value, classify);
            var top := PapersOf(Take(relevant, MaxPaperRecommend));
            var next := RunSpec(stored, Fetched(es), now, classify).saved.value;
            forall p :: p in Candidates(next, laterEntries, later).value ==> p.id !in Ids(top)
  {
    var h := Load(stored);
    RunAsymmetry(stored, es, now, classify);
    var next := RunSpec(stored, Fetched(es), now, classify).saved.value;
    var seen := next.records.Keys;
    FilteredGuarantees(laterEntries, seen, Window(later));
    var cs := Candidates(next, laterEntries, later).value;
    var ps := Filtered(laterEntries, seen, Window(later)).value;
    forall p | p in cs ensures p in ps {
      var i :| 0 <= i < |cs| && cs[i] == p;
      assert ps[i] == p;
    }
  }

  /** The candidates of a run, exactly: there are some precisely when no entry before the
      first stale one is faulty, and then they are the first `MaxPaperAnalyze` admissible
      entries before that point, newest first. */
  lemma CandidatesExactly(h: History, es: seq<RawEntry>, now: int)
    ensures var seen := h.records.Keys;
            var k := FirstStale(es, seen, Window(now));
            && (Candidates(h, es, now).Ok? <==> forall i :: 0 <= i < k ==> !Faulty(es[i], seen, Window(now)))
            && (Candidates(h, es, now).Ok? ==>
                  Candidates(h, es, now).value
                  == Take(SortNewestFirst(AdmissiblePapers(es[..k], seen, Window(now))), MaxPaperAnalyze))
  {
    ScanExactly(es, h.records.Keys, Window(now));
  }

  /** A new entry before the first stale one that lacks its id, its date, or a field the
      paper needs ends the run in the catch-all handler, with no email and no history
      save, provided every earlier entry is a duplicate or admissible; the exception
      names the first missing field. */
  lemma MalformedEntryCrashesRun(stored: StoredHistory, es: seq<RawEntry>, now: int,
                                 classify: Prompt -> Option<Verdict>, j: nat)
    requires var seen := Load(stored).records.Keys;
             && j < FirstStale(es, seen, Window(now))
             && (forall i :: 0 <= i < j ==> !Faulty(es[i], seen, Window(now)))
             && Faulty(es[j], seen, Window(now))
    ensures RunSpec(stored, Fetched(es), now, classify)
            == Crashed(BadEntry(Malformed(FaultOf(es[j], Load(stored).records.Keys, Window(now)))))
  {
    ScanFailsAtFirstFault(es, Load(stored).records.Keys, Window(now), j);
  }

  /** A reply the classifier marks relevant but that lacks `highlights_novelty` or
      `why_recommend` ends the run with a `KeyError` while rendering, so no email goes
      out and the history is not saved. */
  lemma IncompleteReplyCrashesRun(stored: StoredHistory, es: seq<RawEntry>, now: int,
                                  classify: Prompt -> Option<Verdict>, i: nat)
    requires Candidates(Load(stored), es, now).Ok?
    requires i < |Candidates(Load(stored), es, now).value|
    requires var reply := classify(PromptFor(Load(stored), Candidates(Load(stored), es, now).value[i]));
             Accepted(reply) && !(reply.value.highlightsNovelty.Some? && reply.value.whyRecommend.Some?)
    ensures RunSpec(stored, Fetched(es), now, classify).Crashed?
    ensures RunSpec(stored, Fetched(es), now, classify).crash.BadReply?
  {
    var h := Load(stored);
    var cs := Candidates(h, es, now).value;
    var replies := Replies(cs, h, classify);
    var relevant := KeepRelevant(cs, replies);
    KeepRelevantExactly(cs, replies);
    AcceptedPositionsExactly(replies);
    var idx := AcceptedPositions(replies);
    assert i in idx;
    var k :| 0 <= k < |idx| && idx[k] == i;
    assert !Complete(relevant[k]);
    RenderExactly(relevant);
  }

  /** Digest order: the cards of a completed run are newest first, because the filter
      sorts, the cap keeps a prefix and selection keeps candidate order. */
  lemma DigestNewestFirst(stored: StoredHistory, es: seq<RawEntry>, now: int, classify: Prompt -> Option<Verdict>)
    requires RunSpec(stored, Fetched(es), now, classify).Completed?
    requires RunSpec(stored, Fetched(es), now, classify).email.Digest?
    ensures var cards := RunSpec(stored, Fetched(es), now, classify).email.cards;
            forall i, j :: 0 <= i < j < |cards| ==> cards[i].published >= cards[j].published
  {
    var h := Load(stored);
    var seen := h.records.Keys;
    FilteredGuarantees(es, seen, Window(now));
    var ps := Filtered(es, seen, Window(now)).value;
    var cs := Candidates(h, es, now).value;
    assert NewestFirst(cs) by {
      forall i, j | 0 <= i < j < |cs| ensures cs[i].published >= cs[j].published {
        assert cs[i] == ps[i] && cs[j] == ps[j];
      }
    }
    var replies := Replies(cs, h, classify);
    var relevant := KeepRelevant(cs, replies);
    KeepRelevantNewestFirst(cs, replies);
    RenderExactly(relevant);
    var cards := RunSpec(stored, Fetched(es), now, classify).email.cards;
    forall i, j | 0 <= i < j < |cards| ensures cards[i].published >= cards[j].published {
      assert cards[i].published == PapersOf(relevant)[i].published;
      assert cards[j].published == PapersOf(relevant)[j].published;
    }
  }
}
