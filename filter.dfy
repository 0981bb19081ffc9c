/** `parse_and_filter_papers`: walk the feed entries in delivered order, skip the ones
    already in the history, stop at the first remaining one older than the admission
    window, then order the admitted papers newest first. */
module CandidateFilter {
  import opened Wrappers
  import opened Text
  import opened Papers

  /** `DATE_AHEAD`: the admission window, in days. */
  const DateAhead := 4
  const SecondsPerDay := 86400

  /** `datetime.now() - timedelta(days=DATE_AHEAD)`, with `now` in seconds. */
  function Window(now: int): (w: int)
    ensures w < now
    ensures now - w == DateAhead * SecondsPerDay
  {
    now - DateAhead * SecondsPerDay
  }

  /** The fields of one feed entry as the XML layer hands them over. `None` marks an
      element (or its text) that is missing; for `published` it also marks a timestamp
      not in the feed's `%Y-%m-%dT%H:%M:%SZ` form. `title` and `summary` are already
      whitespace-normalised. */
  datatype RawEntry = RawEntry(
    id: Option<string>,
    published: Option<int>,
    title: Option<string>,
    authors: seq<Option<string>>,
    summary: Option<string>)

  /** The field whose absence raised. */
  datatype Field = Id | Published | Title | AuthorName | Summary

  /** The exception that ends the scan; nothing in `parse_and_filter_papers` catches it. */
  datatype ScanError = Malformed(field: Field)

  /** The entry's id is already a history key: the entry is skipped, whatever else it holds. */
  predicate Duplicate(e: RawEntry, seen: set<string>)
  {
    e.id.Some? && e.id.value in seen
  }

  /** The entry is new and readable but older than the window: the scan ends at it. */
  predicate Stale(e: RawEntry, seen: set<string>, window: int)
  {
    e.id.Some? && e.id.value !in seen && e.published.Some? && e.published.value < window
  }

  /** The author names when every one is present: `None` exactly when some name is
      missing, and otherwise every name, in order. */
  function AuthorNames(authors: seq<Option<string>>): (names: Option<seq<string>>)
    ensures names.None? <==> exists i :: 0 <= i < |authors| && authors[i].None?
    ensures names.Some? ==>
              && |names.value| == |authors|
              && forall i :: 0 <= i < |authors| ==> authors[i].Some? && names.value[i] == authors[i].value
  {
    if authors == [] then Some([])
    else if authors[0].None? then None
    else match AuthorNames(authors[1..])
      case None => None
      case Some(rest) => Some([authors[0].value] + rest)
  }

  /** The paper dictionary built for an admitted entry; its fields are read in the order
      title, authors, summary, and the first missing one raises. */
  function Build(e: RawEntry, id: string, published: int): (r: Result<Paper, Field>)
    ensures r.Err? <==> e.title.None? || AuthorNames(e.authors).None? || e.summary.None?
    ensures r.Err? ==>
              r.error == (if e.title.None? then Title else if AuthorNames(e.authors).None? then AuthorName else Summary)
    ensures r.Ok? ==>
              && r.value.id == id && r.value.published == published
              && r.value.title == e.title.value && r.value.summary == e.summary.value
              && r.value.authors == Join(", ", AuthorNames(e.authors).value)
  {
    if e.title.None? then Err(Title)
    else match AuthorNames(e.authors)
      case None => Err(AuthorName)
      case Some(names) =>
        if e.summary.None? then Err(Summary)
        else Ok(Paper(id, e.title.value, Join(", ", names), e.summary.value, published))
  }

  /** `papers` placed in front of a scan result. */
  function Prepend(papers: seq<Paper>, r: Result<seq<Paper>, ScanError>): Result<seq<Paper>, ScanError>
  {
    match r
    case Ok(rest) => Ok(papers + rest)
    case Err(e) => Err(e)
  }

  /** The loop at paper_agent.py:67-84: the admitted papers in feed order, or the error
      that ended it. The id is read first; the date only for an entry not in history. */
  function Scan(es: seq<RawEntry>, seen: set<string>, window: int): Result<seq<Paper>, ScanError>
  {
    if es == [] then Ok([])
    else
      var e := es[0];
      if e.id.None? then Err(Malformed(Id))
      else if e.id.value in seen then Scan(es[1..], seen, window)
      else if e.published.None? then Err(Malformed(Published))
      else if e.published.value < window then Ok([])
      else match Build(e, e.id.value, e.published.value)
        case Err(f) => Err(Malformed(f))
        case Ok(p) => Prepend([p], Scan(es[1..], seen, window))
  }

  /** Places `p` before the first paper not newer than it, so that it precedes papers of
      equal date that came after it in the input. */
  function Insert(p: Paper, ps: seq<Paper>): seq<Paper>
  {
    if ps == [] || ps[0].published <= p.published then [p] + ps
    else [ps[0]] + Insert(p, ps[1..])
  }

  /** `list.sort(key=published, reverse=True)`: a stable sort, newest first. */
  function SortNewestFirst(ps: seq<Paper>): seq<Paper>
  {
    if ps == [] then [] else Insert(ps[0], SortNewestFirst(ps[1..]))
  }

  /** The papers published at time `t`, in their order in `ps`. */
  function WithDate(ps: seq<Paper>, t: int): seq<Paper>
  {
    if ps == [] then []
    else (if ps[0].published == t then [ps[0]] else []) + WithDate(ps[1..], t)
  }

  /** What `parse_and_filter_papers` returns (or raises). */
  function Filtered(es: seq<RawEntry>, seen: set<string>, window: int): Result<seq<Paper>, ScanError>
  {
    match Scan(es, seen, window)
    case Ok(admitted) => Ok(SortNewestFirst(admitted))
    case Err(e) => Err(e)
  }

  /** `parse_and_filter_papers(entries, history.keys())` on already extracted entries,
      with the clock reading `now` passed in. */
  method ParseAndFilter(es: seq<RawEntry>, seen: set<string>, now: int)
    returns (r: Result<seq<Paper>, ScanError>)
    ensures r == Filtered(es, seen, Window(now))
  {
    var window := Window(now);
    var entries: seq<Paper> := [];
    var i := 0;
    assert es[0..] == es;
    assert Prepend([], Scan(es, seen, window)) == Scan(es, seen, window) by {
      if Scan(es, seen, window).Ok? { assert [] + Scan(es, seen, window).value == Scan(es, seen, window).value; }
    }
    while i < |es|
      invariant 0 <= i <= |es|
      invariant Scan(es, seen, window) == Prepend(entries, Scan(es[i..], seen, window))
    {
      var e := es[i];
      assert es[i..][0] == e && es[i..][1..] == es[i + 1..];
      if e.id.None? {
        return Err(Malformed(Id));
      }
      if e.id.value in seen {
        i := i + 1;
        continue;
      }
      if e.published.None? {
        return Err(Malformed(Published));
      }
      if e.published.value < window {
        assert entries + [] == entries;
        break;
      }
      var built := Build(e, e.id.value, e.published.value);
      if built.Err? {
        return Err(Malformed(built.error));
      }
      var rest := Scan(es[i + 1..], seen, window);
      assert Scan(es[i..], seen, window) == Prepend([built.value], rest);
      if rest.Ok? {
        assert entries + ([built.value] + rest.value) == (entries + [built.value]) + rest.value;
      }
      entries := entries + [built.value];
      i := i + 1;
    }
    assert i == |es| ==> es[i..] == [] && entries + [] == entries;
    assert Scan(es, seen, window) == Ok(entries);
    entries := SortNewestFirst(entries);
    r := Ok(entries);
  }

  /** Dedup and freshness: no admitted paper's id is a history key, and every admitted
      paper was published inside the window. */
  lemma {:induction false} ScanAdmitsOnlyNewAndFresh(es: seq<RawEntry>, seen: set<string>, window: int)
    requires Scan(es, seen, window).Ok?
    ensures forall p :: p in Scan(es, seen, window).value ==> p.id !in seen && p.published >= window
  {
    if es != [] {
      var e := es[0];
      if e.id.value in seen {
        ScanAdmitsOnlyNewAndFresh(es[1..], seen, window);
      } else if e.published.value >= window {
        ScanAdmitsOnlyNewAndFresh(es[1..], seen, window);
      }
    }
  }

  /** Early exit: once the scan reaches a stale entry, nothing after it is looked at, so
      the result is that of the feed cut just after that entry (entries after it, even
      malformed ones, change nothing). */
  lemma {:induction false} ScanStopsAtStale(es: seq<RawEntry>, seen: set<string>, window: int, j: nat)
    requires j < |es| && Stale(es[j], seen, window)
    ensures Scan(es, seen, window) == Scan(es[..j + 1], seen, window)
  {
    var cut := es[..j + 1];
    assert cut[0] == es[0];
    if j > 0 {
      assert cut[1..] == es[1..][..j];
      ScanStopsAtStale(es[1..], seen, window, j - 1);
    }
  }

  /** An entry whose id is already in the history is invisible to the scan, wherever it
      stands and whatever its date or other fields: in particular a stale duplicate does
      not end the scan and a malformed duplicate does not raise. */
  lemma {:induction false} ScanIgnoresDuplicate(es: seq<RawEntry>, seen: set<string>, window: int, j: nat)
    requires j < |es| && Duplicate(es[j], seen)
    ensures Scan(es, seen, window) == Scan(es[..j] + es[j + 1..], seen, window)
  {
    var rest := es[..j] + es[j + 1..];
    if j == 0 {
      assert rest == es[1..];
    } else {
      assert rest[0] == es[0];
      assert rest[1..] == es[1..][..j - 1] + es[1..][j..];
      ScanIgnoresDuplicate(es[1..], seen, window, j - 1);
    }
  }

  /** The entry would be admitted if the scan reached it: new to the history, dated
      inside the window, and with every field the paper needs. */
  predicate Admissible(e: RawEntry, seen: set<string>, window: int)
  {
    && e.id.Some? && e.id.value !in seen
    && e.published.Some? && e.published.value >= window
    && Build(e, e.id.value, e.published.value).Ok?
  }

  /** The paper an admissible entry becomes. */
  function Admitted(e: RawEntry, seen: set<string>, window: int): (p: Paper)
    requires Admissible(e, seen, window)
    ensures p.id == e.id.value && p.published == e.published.value && p.title == e.title.value
  {
    Build(e, e.id.value, e.published.value).value
  }

  /** The entry raises when the scan reaches it: it is not a duplicate, does not end the
      scan, and cannot be admitted. */
  predicate Faulty(e: RawEntry, seen: set<string>, window: int)
  {
    !Duplicate(e, seen) && !Stale(e, seen, window) && !Admissible(e, seen, window)
  }

  /** The field a faulty entry raises on: its id, else its date, else the first paper
      field it lacks. */
  function FaultOf(e: RawEntry, seen: set<string>, window: int): (f: Field)
    requires Faulty(e, seen, window)
    ensures f == Id <==> e.id.None?
    ensures f == Published <==> e.id.Some? && e.published.None?
    ensures e.id.Some? && e.published.Some? ==> Build(e, e.id.value, e.published.value) == Err(f)
  {
    if e.id.None? then Id
    else if e.published.None? then Published
    else Build(e, e.id.value, e.published.value).error
  }

  /** The position of the first stale entry, or the length of the feed when there is none. */
  function FirstStale(es: seq<RawEntry>, seen: set<string>, window: int): (k: nat)
    ensures k <= |es|
    ensures forall i :: 0 <= i < k ==> !Stale(es[i], seen, window)
    ensures k < |es| ==> Stale(es[k], seen, window)
  {
    if es == [] || Stale(es[0], seen, window) then 0
    else 1 + FirstStale(es[1..], seen, window)
  }

  /** The admissible entries of a feed, as papers, in feed order. */
  function AdmissiblePapers(es: seq<RawEntry>, seen: set<string>, window: int): seq<Paper>
  {
    if es == [] then []
    else
      (if Admissible(es[0], seen, window) then [Admitted(es[0], seen, window)] else [])
      + AdmissiblePapers(es[1..], seen, window)
  }

  /** What a successful scan is: it succeeds exactly when no entry before the first stale
      one is faulty, and then it returns the admissible entries before that point, as
      papers, in feed order. */
  lemma {:induction false} ScanExactly(es: seq<RawEntry>, seen: set<string>, window: int)
    ensures var k := FirstStale(es, seen, window);
            Scan(es, seen, window).Ok? <==> forall i :: 0 <= i < k ==> !Faulty(es[i], seen, window)
    ensures Scan(es, seen, window).Ok? ==>
              Scan(es, seen, window).value == AdmissiblePapers(es[..FirstStale(es, seen, window)], seen, window)
  {
    if es != [] {
      var e := es[0];
      var k := FirstStale(es, seen, window);
      if Stale(e, seen, window) {
        assert es[..k] == [];
      } else {
        var tail := es[1..];
        var k' := FirstStale(tail, seen, window);
        ScanExactly(tail, seen, window);
        assert k == k' + 1;
        assert es[..k] == [e] + tail[..k'];
        assert ([e] + tail[..k'])[1..] == tail[..k'];
        assert (forall i :: 0 <= i < k ==> !Faulty(es[i], seen, window))
               <==> !Faulty(e, seen, window) && (forall i :: 0 <= i < k' ==> !Faulty(tail[i], seen, window)) by {
          assert forall i :: 0 <= i < k' ==> tail[i] == es[i + 1];
          if forall i :: 0 <= i < k' ==> !Faulty(tail[i], seen, window) {
            forall i | 1 <= i < k ensures !Faulty(es[i], seen, window) {
              assert es[i] == tail[i - 1];
            }
          }
        }
      }
    }
  }

  /** What a failing scan is: when the entry at `j` is the first faulty one before the
      first stale entry, the scan raises on the field `FaultOf` names for it. */
  lemma {:induction false} ScanFailsAtFirstFault(es: seq<RawEntry>, seen: set<string>, window: int, j: nat)
    requires j < FirstStale(es, seen, window)
    requires forall i :: 0 <= i < j ==> !Faulty(es[i], seen, window)
    requires Faulty(es[j], seen, window)
    ensures Scan(es, seen, window) == Err(Malformed(FaultOf(es[j], seen, window)))
  {
    if j > 0 {
      assert !Stale(es[0], seen, window) && !Faulty(es[0], seen, window);
      var tail := es[1..];
      assert tail[j - 1] == es[j];
      assert forall i :: 0 <= i < j - 1 ==> tail[i] == es[i + 1];
      ScanFailsAtFirstFault(tail, seen, window, j - 1);
    }
  }

  /** Inserting adds exactly `p`. */
  lemma {:induction false} InsertAddsOne(p: Paper, ps: seq<Paper>)
    ensures multiset(Insert(p, ps)) == multiset(ps) + multiset{p}
  {
    if ps != [] && ps[0].published > p.published {
      InsertAddsOne(p, ps[1..]);
      assert ps == [ps[0]] + ps[1..];
    }
  }

  /** Inserting into a newest-first list keeps it newest first. */
  lemma {:induction false} InsertKeepsOrder(p: Paper, ps: seq<Paper>)
    requires NewestFirst(ps)
    ensures NewestFirst(Insert(p, ps))
  {
    if ps != [] && ps[0].published > p.published {
      var tail := Insert(p, ps[1..]);
      InsertKeepsOrder(p, ps[1..]);
      InsertAddsOne(p, ps[1..]);
      forall k | 0 <= k < |tail| ensures tail[k].published <= ps[0].published {
        assert tail[k] in multiset(tail);
        assert tail[k] == p || tail[k] in multiset(ps[1..]);
      }
      assert Insert(p, ps) == [ps[0]] + tail;
    }
  }

  /** The sort yields a newest-first permutation of its input. */
  lemma {:induction false} SortIsNewestFirstPermutation(ps: seq<Paper>)
    ensures NewestFirst(SortNewestFirst(ps))
    ensures multiset(SortNewestFirst(ps)) == multiset(ps)
  {
    if ps != [] {
      SortIsNewestFirstPermutation(ps[1..]);
      InsertKeepsOrder(ps[0], SortNewestFirst(ps[1..]));
      InsertAddsOne(ps[0], SortNewestFirst(ps[1..]));
      assert ps == [ps[0]] + ps[1..];
    }
  }

  /** Inserting `p` puts it ahead of every paper of its own date. */
  lemma {:induction false} InsertWithDate(p: Paper, ps: seq<Paper>, t: int)
    ensures WithDate(Insert(p, ps), t) == (if p.published == t then [p] else []) + WithDate(ps, t)
  {
    var mine: seq<Paper> := if p.published == t then [p] else [];
    if ps == [] || ps[0].published <= p.published {
      assert Insert(p, ps) == [p] + ps;
      assert ([p] + ps)[0] == p && ([p] + ps)[1..] == ps;
    } else {
      var x := ps[0];
      var tail := Insert(p, ps[1..]);
      InsertWithDate(p, ps[1..], t);
      assert Insert(p, ps) == [x] + tail;
      assert ([x] + tail)[0] == x && ([x] + tail)[1..] == tail;
      var theirs: seq<Paper> := if x.published == t then [x] else [];
      assert WithDate(Insert(p, ps), t) == theirs + (mine + WithDate(ps[1..], t));
      assert WithDate(ps, t) == theirs + WithDate(ps[1..], t);
      assert theirs == [] || mine == [];
    }
  }

  /** Stability: papers of equal date keep their input order, as Python's sort promises
      even with `reverse=True`. */
  lemma {:induction false} SortIsStable(ps: seq<Paper>, t: int)
    ensures WithDate(SortNewestFirst(ps), t) == WithDate(ps, t)
  {
    if ps != [] {
      SortIsStable(ps[1..], t);
      InsertWithDate(ps[0], SortNewestFirst(ps[1..]), t);
    }
  }

  /** A list already newest first is left as it is. */
  lemma {:induction false} SortKeepsNewestFirst(ps: seq<Paper>)
    requires NewestFirst(ps)
    ensures SortNewestFirst(ps) == ps
  {
    if ps != [] {
      SortKeepsNewestFirst(ps[1..]);
      assert ps == [ps[0]] + ps[1..];
    }
  }

  /** The filter's result: newest first, a stable permutation of the admitted papers, and
      every paper new to the history and inside the window. */
  lemma {:induction false} FilteredGuarantees(es: seq<RawEntry>, seen: set<string>, window: int)
    requires Filtered(es, seen, window).Ok?
    ensures var ps := Filtered(es, seen, window).value;
            var admitted := Scan(es, seen, window).value;
            && NewestFirst(ps)
            && multiset(ps) == multiset(admitted)
            && (forall t :: WithDate(ps, t) == WithDate(admitted, t))
            && (forall p :: p in ps ==> p.id !in seen && p.published >= window)
  {
    var admitted := Scan(es, seen, window).value;
    var ps := SortNewestFirst(admitted);
    SortIsNewestFirstPermutation(admitted);
    forall t ensures WithDate(ps, t) == WithDate(admitted, t) {
      SortIsStable(admitted, t);
    }
    ScanAdmitsOnlyNewAndFresh(es, seen, window);
    forall p | p in ps ensures p in admitted {
      assert p in multiset(ps);
    }
  }
}
