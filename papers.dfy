/** The candidate paper: the dictionary `parse_and_filter_papers` builds for each
    admitted feed entry. */
module Papers {

  /** One admitted entry. `authors` is the names already joined with ", ";
      `published` is the publish time as a number of seconds on the caller's clock. */
  datatype Paper = Paper(id: string, title: string, authors: string, summary: string, published: int)

  /** Non-increasing publish time: newest first. */
  predicate NewestFirst(ps: seq<Paper>)
  {
    forall i, j :: 0 <= i < j < |ps| ==> ps[i].published >= ps[j].published
  }

  /** The ids of a list of papers, as a set. */
  function Ids(ps: seq<Paper>): set<string>
  {
    set i | 0 <= i < |ps| :: ps[i].id
  }
}
