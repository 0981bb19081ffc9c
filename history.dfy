/** The persisted history: paper id to `{title, summary}`, loaded at the start of a run
    and written back at its end. */
module HistoryStore {

  /** The value kept per recommended paper. */
  datatype Record = Record(title: string, summary: string)

  /** A Python dictionary from paper id to record. Python dictionaries remember insertion
      order and that order shows in the classifier prompt, so `order` lists the keys,
      each once, in the order they were first inserted. */
  datatype History = History(order: seq<string>, records: map<string, Record>)

  /** `order` and `records` describe the same keys, and no key is listed twice. */
  ghost predicate Valid(h: History)
  {
    && (forall i, j :: 0 <= i < j < |h.order| ==> h.order[i] != h.order[j])
    && (forall k :: k in h.records <==> k in h.order)
  }

  const Empty := History([], map[])

  /** `history[k] = v`: a new key goes last; a key already present keeps its place and
      takes the new value. */
  function Put(h: History, k: string, v: Record): (r: History)
    requires Valid(h)
    ensures Valid(r)
    ensures r.records == h.records[k := v]
    ensures h.order <= r.order
    ensures k !in h.records ==> r.order == h.order + [k]
  {
    if k in h.records then History(h.order, h.records[k := v])
    else History(h.order + [k], h.records[k := v])
  }

  /** The keys of a list of key/value pairs. */
  function KeysOf(pairs: seq<(string, Record)>): set<string>
  {
    set i | 0 <= i < |pairs| :: pairs[i].0
  }

  /** The pairs assigned one after another, as a loop of `history[k] = v` does. */
  function PutAll(h: History, pairs: seq<(string, Record)>): (r: History)
    requires Valid(h)
    ensures Valid(r)
    ensures h.order <= r.order
  {
    if pairs == [] then h
    else
      var n := |pairs| - 1;
      Put(PutAll(h, pairs[..n]), pairs[n].0, pairs[n].1)
  }

  /** Splitting off the last pair: its key set is the rest's plus the last key. */
  lemma KeysOfLast(pairs: seq<(string, Record)>)
    requires pairs != []
    ensures KeysOf(pairs) == KeysOf(pairs[..|pairs| - 1]) + {pairs[|pairs| - 1].0}
  {
  }


  /** Assigning the pairs adds exactly their keys. */
  lemma {:induction false} PutAllKeys(h: History, pairs: seq<(string, Record)>)
    requires Valid(h)
    ensures PutAll(h, pairs).records.Keys == h.records.Keys + KeysOf(pairs)
  {
    if pairs != [] {
      PutAllKeys(h, pairs[..|pairs| - 1]);
      KeysOfLast(pairs);
    }
  }

  /** A key the pairs do not mention keeps its value. */
  lemma {:induction false} PutAllKeeps(h: History, pairs: seq<(string, Record)>, k: string)
    requires Valid(h)
    requires k in h.records && k !in KeysOf(pairs)
    ensures k in PutAll(h, pairs).records && PutAll(h, pairs).records[k] == h.records[k]
  {
    if pairs != [] {
      KeysOfLast(pairs);
      PutAllKeeps(h, pairs[..|pairs| - 1], k);
    }
  }

  /** A key the pairs mention holds the value of its last pair. */
  lemma {:induction false} PutAllLastWins(h: History, pairs: seq<(string, Record)>, j: nat)
    requires Valid(h)
    requires j < |pairs|
    requires forall j' :: j < j' < |pairs| ==> pairs[j'].0 != pairs[j].0
    ensures pairs[j].0 in PutAll(h, pairs).records && PutAll(h, pairs).records[pairs[j].0] == pairs[j].1
  {
    var n := |pairs| - 1;
    if j < n {
      var init := pairs[..n];
      assert init[j] == pairs[j];
      forall j' | j < j' < |init| ensures init[j'].0 != init[j].0 {
        assert init[j'] == pairs[j'];
      }
      PutAllLastWins(h, init, j);
    }
  }

  /** The keys of a list of pairs, in pair order. */
  function KeyList(pairs: seq<(string, Record)>): (ks: seq<string>)
    ensures |ks| == |pairs|
    ensures forall i :: 0 <= i < |pairs| ==> ks[i] == pairs[i].0
  {
    if pairs == [] then [] else KeyList(pairs[..|pairs| - 1]) + [pairs[|pairs| - 1].0]
  }

  lemma AppendAssociative(a: seq<string>, b: seq<string>, c: seq<string>)
    ensures a + b + c == a + (b + c)
  {
  }

  /** When the pairs' keys are new and pairwise distinct, the keys are appended in pair
      order. */
  lemma {:induction false} PutAllFreshOrder(h: History, pairs: seq<(string, Record)>)
    requires Valid(h)
    requires forall i :: 0 <= i < |pairs| ==> pairs[i].0 !in h.records
    requires forall i, j :: 0 <= i < j < |pairs| ==> pairs[i].0 != pairs[j].0
    ensures PutAll(h, pairs).order == h.order + KeyList(pairs)
  {
    if pairs != [] {
      var n := |pairs| - 1;
      var init := pairs[..n];
      var k := pairs[n].0;
      assert forall i :: 0 <= i < |init| ==> init[i] == pairs[i];
      PutAllFreshOrder(h, init);
      var prev := PutAll(h, init);
      assert prev.order == h.order + KeyList(init);
      PutAllKeys(h, init);
      assert k !in KeysOf(init);
      assert k !in prev.records;
      assert PutAll(h, pairs) == Put(prev, k, pairs[n].1);
      assert Put(prev, k, pairs[n].1).order == prev.order + [k];
      assert KeyList(pairs) == KeyList(init) + [k];
      AppendAssociative(h.order, KeyList(init), [k]);
    }
  }

  /** What is on disk: no history file; a file that cannot be opened or read, or whose
      text is not valid JSON; or the key/value pairs of the stored JSON object in file
      order. */
  datatype StoredHistory = NoFile | Unreadable | Stored(pairs: seq<(string, Record)>)

  /** `load_history`: a missing file, one that cannot be opened or read, or one whose text
      is not valid JSON gives the empty history; a JSON object
      gives the dictionary its pairs build (a repeated key keeps its first place and its
      last value). */
  function Load(s: StoredHistory): (h: History)
    ensures Valid(h)
    ensures h.records.Keys == if s.Stored? then KeysOf(s.pairs) else {}
  {
    match s
    case Stored(pairs) =>
      PutAllKeys(Empty, pairs);
      PutAll(Empty, pairs)
    case _ => Empty
  }
}
