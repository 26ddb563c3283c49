/**
  The field extraction that the movie and TV-show detail pages apply to the
  already-decoded metadata records (credits and details). Fetching and
  decoding the records is not part of this model.
*/
module Details {
  import opened Wrappers

  /** How many cast names a detail page shows. */
  const CAST_LIMIT := 10

  /** A decoded record of which only the `name` field is read: a cast member, a genre, a creator. */
  datatype Named = Named(name: string)

  /** A decoded crew record. */
  datatype CrewMember = CrewMember(name: string, job: string)

  /** The `name` of every record, in order. */
  function Names(records: seq<Named>): (r: seq<string>)
    ensures |r| == |records|
    ensures forall i :: 0 <= i < |r| ==> r[i] == records[i].name
  {
    if |records| == 0 then [] else [records[0].name] + Names(records[1..])
  }

  /** `[cast["name"] for cast in credit_data["cast"][:10]]`: the names of the first ten cast members. */
  function Cast(cast: seq<Named>): (r: seq<string>)
    ensures |r| == if |cast| < CAST_LIMIT then |cast| else CAST_LIMIT
    ensures forall i :: 0 <= i < |r| ==> r[i] == cast[i].name
  {
    Names(if |cast| < CAST_LIMIT then cast else cast[..CAST_LIMIT])
  }

  /** `[genre["name"] for genre in data["genres"]]` */
  function Genres(genres: seq<Named>): (r: seq<string>)
    ensures |r| == |genres|
    ensures forall i :: 0 <= i < |r| ==> r[i] == genres[i].name
  {
    Names(genres)
  }

  /**
    `data["created_by"][0]["name"]`, with the `IndexError` of an empty list
    caught and turned into `None`.
  */
  function Creator(createdBy: seq<Named>): (r: Option<string>)
    ensures r.None? <==> |createdBy| == 0
    ensures r.Some? ==> r.value == createdBy[0].name
  {
    if |createdBy| == 0 then None else Some(createdBy[0].name)
  }

  /** Crew member `i` is the last one whose job is "Director". */
  ghost predicate IsLastDirector(crew: seq<CrewMember>, i: int) {
    && 0 <= i < |crew|
    && crew[i].job == "Director"
    && forall j :: i < j < |crew| ==> crew[j].job != "Director"
  }

  /**
    The director loop of `find_movie`: every crew member whose job is
    "Director" overwrites `director`, so the last one wins. With no director
    the variable is never bound and building the movie fails (`None` here).
  */
  method FindDirector(crew: seq<CrewMember>) returns (director: Option<string>)
    ensures director.None? <==> forall i :: 0 <= i < |crew| ==> crew[i].job != "Director"
    ensures director.Some? ==> exists i :: IsLastDirector(crew, i) && crew[i].name == director.value
  {
    director := None;
    for k := 0 to |crew|
      invariant director.None? <==> forall i :: 0 <= i < k ==> crew[i].job != "Director"
      invariant director.Some? ==> exists i :: 0 <= i < k && crew[i].job == "Director" &&
                                               crew[i].name == director.value &&
                                               forall j :: i < j < k ==> crew[j].job != "Director"
    {
      if crew[k].job == "Director" {
        director := Some(crew[k].name);
      }
    }
  }

  /** The credit fields of a movie page. */
  datatype MovieCredits = MovieCredits(director: string, cast: seq<string>, genres: seq<string>)

  /**
    The credit fields `find_movie` passes to `Movie`: the director, the first
    ten cast names and the genre names. `None` stands for the failure of a
    movie without a director.
  */
  method MovieCreditsOf(crew: seq<CrewMember>, cast: seq<Named>, genres: seq<Named>)
    returns (credits: Option<MovieCredits>)
    ensures credits.None? <==> forall i :: 0 <= i < |crew| ==> crew[i].job != "Director"
    ensures credits.Some? ==>
      && (exists i :: IsLastDirector(crew, i) && crew[i].name == credits.value.director)
      && credits.value.cast == Cast(cast)
      && credits.value.genres == Genres(genres)
  {
    var director := FindDirector(crew);
    if director.None? {
      return None;
    }
    return Some(MovieCredits(director.value, Cast(cast), Genres(genres)));
  }

  /** The credit fields of a TV-show page; the creator may be missing. */
  datatype ShowCredits = ShowCredits(creator: Option<string>, cast: seq<string>, genres: seq<string>)

  /** The credit fields `find_tv_show` passes to `TVShow`; a show never fails for want of a creator. */
  function ShowCreditsOf(createdBy: seq<Named>, cast: seq<Named>, genres: seq<Named>): (r: ShowCredits)
    ensures r.creator.None? <==> |createdBy| == 0
    ensures r.creator.Some? ==> r.creator.value == createdBy[0].name
    ensures |r.cast| <= CAST_LIMIT && r.cast == Cast(cast)
    ensures r.genres == Genres(genres)
  {
    ShowCredits(Creator(createdBy), Cast(cast), Genres(genres))
  }
}
