/**
 * The movie client's state machine: the loaded movie list, the selected
 * movie, the edit form and the status line, and the commands that change
 * them. HTTP outcomes, the delete confirmation and the random draws are
 * parameters, and every command returns the requests it issued, in order.
 */
module Client {
  import opened Wrappers
  import opened JsString
  import opened Uuid
  import opened MovieForm

  /** A request to the movie API. */
  datatype Request =
    | GetAll                     // GET /movie
    | GetByTitle(title: string)  // GET /movie/title/{title}
    | Post(movie: Movie)         // POST /movie
    | Put(movie: Movie)          // PUT /movie
    | Delete(id: string)         // DELETE /movie/{id}

  /** How a request ended: a 2xx response and its body, a response outside
      2xx, or an exception (network failure, unreadable body) and its message. */
  datatype Response<T> = Ok(body: T) | NotOk | Thrown(message: string)

  /** The message a failed request shows after "Error: ": the command's own
      text for a response outside 2xx, the exception's message otherwise. */
  function FailureMessage<T>(r: Response<T>, notOk: string): string
    requires !r.Ok?
  {
    if r.NotOk? then notOk else r.message
  }

  datatype Severity = Info | Success | Error

  /** What the status line shows. */
  datatype Status =
    | Ready                         // "Ready to connect to API at ..."
    | Loaded(count: nat)            // "Loaded n movies"
    | Found(count: nat, title: string)
    | TitleRequired                 // "Please enter a title to search"
    | Created | Updated | Deleted   // "Movie ... successfully!"
    | UpdateNeedsSelection          // "Please select a movie to update"
    | DeleteNeedsSelection          // "Please select a movie to delete"
    | Showing(title: string)        // "Selected movie: ..."
    | Cleared                       // "Form cleared"
    | Failed(message: string)       // "Error: " + message

  /** The CSS class showStatus is given with each message: the refusals and
      the failures are errors, the loads and the completed writes successes,
      the rest information. */
  function SeverityOf(s: Status): (severity: Severity)
    ensures severity == Error <==> s.TitleRequired? || s.UpdateNeedsSelection? || s.DeleteNeedsSelection? || s.Failed?
    ensures severity == Success <==> s.Loaded? || s.Found? || s.Created? || s.Updated? || s.Deleted?
  {
    match s
    case Ready | Showing(_) | Cleared => Info
    case Loaded(_) | Found(_, _) | Created | Updated | Deleted => Success
    case TitleRequired | UpdateNeedsSelection | DeleteNeedsSelection | Failed(_) => Error
  }

  /** Everything a command reads or changes. */
  datatype State = State(movies: seq<Movie>, selected: Option<string>, form: Form, status: Status)

  /** The result of one command: the new state and the requests issued. */
  datatype Step = Step(state: State, sent: seq<Request>)

  /** Array.prototype.find by id: the first movie with that id, if any. */
  function Find(movies: seq<Movie>, id: string): (found: Option<Movie>)
    ensures found.None? <==> forall k :: 0 <= k < |movies| ==> movies[k].id != id
    ensures found.Some? ==> exists k :: 0 <= k < |movies| && movies[k] == found.value
                                        && found.value.id == id
                                        && forall j :: 0 <= j < k ==> movies[j].id != id
  {
    if movies == [] then None
    else if movies[0].id == id then Some(movies[0])
    else
      var found := Find(movies[1..], id);
      assert found.Some? ==> exists k :: 0 < k < |movies| && movies[k] == found.value
                                         && forall j :: 0 <= j < k ==> movies[j].id != id by {
        if found.Some? {
          var k :| 0 <= k < |movies[1..]| && movies[1..][k] == found.value
                   && forall j :: 0 <= j < k ==> movies[1..][j].id != id;
          assert movies[k + 1] == found.value;
          assert forall j :: 1 <= j < k + 1 ==> movies[j].id == movies[1..][j - 1].id;
        }
      }
      found
  }

  /** selectMovie: with a movie of that id, select the id and fill the form
      from the first such movie; otherwise change nothing. */
  function Selecting(st: State, id: string): State {
    match Find(st.movies, id)
    case None => st
    case Some(m) => st.(selected := Some(id), form := FormOf(m), status := Showing(m.title))
  }

  /** clearForm: empty every field and drop the selection. */
  function Clearing(st: State): State {
    st.(form := EmptyForm, selected := None, status := Cleared)
  }

  /** getAllMovies once its response is in: the list is replaced by the one
      returned, or the failure is shown. */
  function Listing(st: State, reply: Response<seq<Movie>>): State {
    match reply
    case Ok(movies) => st.(movies := movies, status := Loaded(|movies|))
    case _ => st.(status := Failed(FailureMessage(reply, "Failed to fetch movies")))
  }

  /** getByTitle: search by the trimmed title field, unless it is blank. */
  function Searching(st: State, reply: Response<seq<Movie>>): Step {
    var title := Trim(st.form.title);
    if title == "" then Step(st.(status := TitleRequired), [])
    else
      var after := match reply
        case Ok(movies) => st.(movies := movies, status := Found(|movies|, title))
        case _ => st.(status := Failed(FailureMessage(reply, "Movie not found")));
      Step(after, [GetByTitle(title)])
  }

  /** createMovie: post the form as a record with a fresh id; on success clear
      the form and reload the list. */
  function Creating(st: State, nibbles: seq<Nibble>, reply: Response<()>, reload: Response<seq<Movie>>): Step
    requires |nibbles| == UuidNibbles
  {
    var movie := ReadForm(st.form, true, nibbles);
    if reply.Ok? then Step(Listing(Clearing(st), reload), [Post(movie), GetAll])
    else Step(st.(status := Failed(FailureMessage(reply, "Failed to create movie"))), [Post(movie)])
  }

  /** updateMovie: put the form as a record, unless the trimmed id field is
      not a valid identifier; on success reload the list and keep the form. */
  function Updating(st: State, reply: Response<()>, reload: Response<seq<Movie>>): Step {
    if !IsValidUuid(Trim(st.form.id)) then Step(st.(status := UpdateNeedsSelection), [])
    else
      var movie := ReadForm(st.form, false, []);
      if reply.Ok? then Step(Listing(st.(status := Updated), reload), [Put(movie), GetAll])
      else Step(st.(status := Failed(FailureMessage(reply, "Failed to update movie"))), [Put(movie)])
  }

  /** deleteMovie: delete by the trimmed id field, unless it is not a valid
      identifier or the user declines; on success clear the form and reload. */
  function Deleting(st: State, confirmed: bool, reply: Response<()>, reload: Response<seq<Movie>>): Step {
    var id := Trim(st.form.id);
    if !IsValidUuid(id) then Step(st.(status := DeleteNeedsSelection), [])
    else if !confirmed then Step(st, [])
    else if reply.Ok? then Step(Listing(Clearing(st), reload), [Delete(id), GetAll])
    else Step(st.(status := Failed(FailureMessage(reply, "Failed to delete movie"))), [Delete(id)])
  }

  /** Selecting an id present in the list selects it and fills the form from
      the first movie with that id, whatever follows it in the list. */
  lemma SelectingFirstMatch(st: State, id: string, k: nat)
    requires k < |st.movies| && st.movies[k].id == id
    requires forall j :: 0 <= j < k ==> st.movies[j].id != id
    ensures Selecting(st, id)
         == st.(selected := Some(id), form := FormOf(st.movies[k]), status := Showing(st.movies[k].title))
  {
    var found := Find(st.movies, id);
    assert found.Some?;
    var i :| 0 <= i < |st.movies| && st.movies[i] == found.value && found.value.id == id
             && forall j :: 0 <= j < i ==> st.movies[j].id != id;
    assert i == k;
  }

  /** Selecting an id absent from the list changes nothing, status included. */
  lemma SelectingMissing(st: State, id: string)
    requires forall k :: 0 <= k < |st.movies| ==> st.movies[k].id != id
    ensures Selecting(st, id) == st
  {
  }

  /** Select, then update without editing: the record put is the selected
      movie itself, for any movie the server could have sent in normal form. */
  lemma SelectThenUpdatePutsSelected(st: State, id: string, m: Movie, reply: Response<()>, reload: Response<seq<Movie>>)
    requires Find(st.movies, id) == Some(m)
    requires IsNormalized(m) && IsValidUuid(m.id)
    ensures Updating(Selecting(st, id), reply, reload).sent != []
    ensures Updating(Selecting(st, id), reply, reload).sent[0] == Put(m)
  {
    ValidUuidIsTrimmed(m.id);
    ReadFormOf(m);
  }

  /** Select, then delete with confirmation: the selected id is deleted. */
  lemma SelectThenDeleteSendsId(st: State, id: string, m: Movie, reply: Response<()>, reload: Response<seq<Movie>>)
    requires Find(st.movies, id) == Some(m)
    requires IsValidUuid(m.id)
    ensures Deleting(Selecting(st, id), true, reply, reload).sent != []
    ensures Deleting(Selecting(st, id), true, reply, reload).sent[0] == Delete(id)
  {
    var selected := Selecting(st, id);
    assert m.id == id && selected.form.id == id;
    ValidUuidIsTrimmed(id);
    assert Trim(selected.form.id) == id;
  }

  /** After clearing, neither update nor delete sends anything: the empty id
      field fails the identifier check and the status asks for a selection. */
  lemma ClearedFormBlocksWrites(st: State, confirmed: bool, reply: Response<()>, reload: Response<seq<Movie>>)
    ensures Updating(Clearing(st), reply, reload) == Step(Clearing(st).(status := UpdateNeedsSelection), [])
    ensures Deleting(Clearing(st), confirmed, reply, reload) == Step(Clearing(st).(status := DeleteNeedsSelection), [])
  {
    assert Trim("") == "";
    WrongLengthRejected("");
  }

  /** Update sends a request exactly when the trimmed id field is a valid
      identifier; otherwise only the status changes, to an error. */
  lemma UpdateGuard(st: State, reply: Response<()>, reload: Response<seq<Movie>>)
    ensures Updating(st, reply, reload).sent != [] <==> IsValidUuid(Trim(st.form.id))
    ensures Updating(st, reply, reload).sent == []
        ==> Updating(st, reply, reload).state == st.(status := UpdateNeedsSelection)
  {
  }

  /** Delete sends a request exactly when the trimmed id field is a valid
      identifier and the user confirms; a declined delete changes nothing. */
  lemma DeleteGuard(st: State, confirmed: bool, reply: Response<()>, reload: Response<seq<Movie>>)
    ensures Deleting(st, confirmed, reply, reload).sent != []
        <==> IsValidUuid(Trim(st.form.id)) && confirmed
    ensures IsValidUuid(Trim(st.form.id)) && !confirmed
        ==> Deleting(st, confirmed, reply, reload) == Step(st, [])
    ensures !IsValidUuid(Trim(st.form.id))
        ==> Deleting(st, confirmed, reply, reload) == Step(st.(status := DeleteNeedsSelection), [])
  {
  }

  /** Search sends one request for the trimmed title unless it is blank; a
      blank title changes only the status. */
  lemma SearchGuard(st: State, reply: Response<seq<Movie>>)
    ensures Searching(st, reply).sent == (if Trim(st.form.title) == "" then [] else [GetByTitle(Trim(st.form.title))])
    ensures reply.Ok? && Trim(st.form.title) != "" ==> Searching(st, reply).state.movies == reply.body
    ensures Trim(st.form.title) == "" ==> Searching(st, reply).state == st.(status := TitleRequired)
  {
  }

  /** Create posts a record whose id is a fresh valid identifier, whatever the
      id field held, and whose other fields are read from the form. */
  lemma CreatePostsFreshRecord(st: State, nibbles: seq<Nibble>, reply: Response<()>, reload: Response<seq<Movie>>)
    requires |nibbles| == UuidNibbles
    ensures Creating(st, nibbles, reply, reload).sent[..1] == [Post(ReadForm(st.form, true, nibbles))]
    ensures IsValidUuid(Creating(st, nibbles, reply, reload).sent[0].movie.id)
    ensures forall other: string ::
      Creating(st.(form := st.form.(id := other)), nibbles, reply, reload).sent
        == Creating(st, nibbles, reply, reload).sent
  {
    forall other: string {
      CreateIgnoresIdField(st.form, other, nibbles);
    }
  }

  /** A write the server rejects, or that throws, leaves the list, the
      selection and the form as they were and shows the failure. */
  lemma FailedWriteKeepsData(st: State, nibbles: seq<Nibble>, confirmed: bool, reply: Response<()>, reload: Response<seq<Movie>>)
    requires |nibbles| == UuidNibbles
    requires !reply.Ok?
    ensures Creating(st, nibbles, reply, reload).state
         == st.(status := Failed(FailureMessage(reply, "Failed to create movie")))
    ensures IsValidUuid(Trim(st.form.id))
        ==> (Updating(st, reply, reload).state
             == st.(status := Failed(FailureMessage(reply, "Failed to update movie"))))
    ensures IsValidUuid(Trim(st.form.id)) && confirmed
        ==> (Deleting(st, confirmed, reply, reload).state
             == st.(status := Failed(FailureMessage(reply, "Failed to delete movie"))))
    ensures |Creating(st, nibbles, reply, reload).sent| == 1
  {
  }

  /** A successful write is followed by one reload, whose list replaces the
      old one wholesale. Create and delete clear the form and the selection;
      update keeps both, even when the reloaded list no longer holds the
      selected movie. */
  lemma SuccessfulWriteReloads(st: State, nibbles: seq<Nibble>, ms: seq<Movie>)
    requires |nibbles| == UuidNibbles
    ensures Creating(st, nibbles, Ok(()), Ok(ms)).state
         == st.(movies := ms, selected := None, form := EmptyForm, status := Loaded(|ms|))
    ensures Creating(st, nibbles, Ok(()), Ok(ms)).sent == [Post(ReadForm(st.form, true, nibbles)), GetAll]
    ensures IsValidUuid(Trim(st.form.id))
        ==> (Updating(st, Ok(()), Ok(ms))
             == Step(st.(movies := ms, status := Loaded(|ms|)), [Put(ReadForm(st.form, false, [])), GetAll]))
    ensures IsValidUuid(Trim(st.form.id))
        ==> (Deleting(st, true, Ok(()), Ok(ms))
             == Step(st.(movies := ms, selected := None, form := EmptyForm, status := Loaded(|ms|)),
                     [Delete(Trim(st.form.id)), GetAll]))
  {
  }

  /** A search stopped by its guard, and a read that fails, end with an error
      on the status line; a failed read changes nothing else. */
  lemma ReadRefusalsShowErrors(st: State, found: Response<seq<Movie>>, reload: Response<seq<Movie>>)
    ensures Searching(st, found).sent == [] || !found.Ok?
        ==> SeverityOf(Searching(st, found).state.status) == Error
    ensures !reload.Ok? ==> SeverityOf(Listing(st, reload).status) == Error
    ensures !reload.Ok?
        ==> Listing(st, reload) == st.(status := Failed(FailureMessage(reload, "Failed to fetch movies")))
    ensures Trim(st.form.title) != "" && !found.Ok?
        ==> Searching(st, found).state == st.(status := Failed(FailureMessage(found, "Movie not found")))
  {
  }

  /** A create that fails ends with an error on the status line. */
  lemma CreateFailureShowsError(st: State, nibbles: seq<Nibble>, reply: Response<()>, reload: Response<seq<Movie>>)
    requires |nibbles| == UuidNibbles
    requires !reply.Ok?
    ensures SeverityOf(Creating(st, nibbles, reply, reload).state.status) == Error
  {
    var message := FailureMessage(reply, "Failed to create movie");
    assert SeverityOf(Failed(message)) == Error;
    assert Creating(st, nibbles, reply, reload).state.status == Failed(message);
  }

  /** An update stopped by its guard, or that fails, ends with an error on
      the status line. */
  lemma UpdateRefusalShowsError(st: State, reply: Response<()>, reload: Response<seq<Movie>>)
    ensures Updating(st, reply, reload).sent == [] || !reply.Ok?
        ==> SeverityOf(Updating(st, reply, reload).state.status) == Error
  {
    var updated := Updating(st, reply, reload);
    if !IsValidUuid(Trim(st.form.id)) {
      assert updated.state.status == UpdateNeedsSelection;
    } else if !reply.Ok? {
      assert updated.state.status == Failed(FailureMessage(reply, "Failed to update movie"));
    }
  }

  /** A confirmed delete stopped by its guard, or that fails, ends with an
      error on the status line. */
  lemma DeleteRefusalShowsError(st: State, reply: Response<()>, reload: Response<seq<Movie>>)
    ensures Deleting(st, true, reply, reload).sent == [] || !reply.Ok?
        ==> SeverityOf(Deleting(st, true, reply, reload).state.status) == Error
  {
    var deleted := Deleting(st, true, reply, reload);
    if !IsValidUuid(Trim(st.form.id)) {
      assert deleted.state.status == DeleteNeedsSelection;
    } else if !reply.Ok? {
      assert deleted.state.status == Failed(FailureMessage(reply, "Failed to delete movie"));
    }
  }

  /** After a selection, the rendered table highlights exactly the rows that
      carry the selected id. */
  lemma SelectHighlightsRows(st: State, id: string)
    requires Find(st.movies, id).Some?
    ensures var after := Selecting(st, id);
            forall k :: 0 <= k < |after.movies| ==> (Rows(after.movies, after.selected)[k].highlighted <==> after.movies[k].id == id)
  {
  }

  /** The selected id, when there is one, is the one in the id field. */
  predicate SelectionInForm(st: State) {
    st.selected.Some? ==> st.form.id == st.selected.value
  }

  /** Selecting, clearing, listing and searching keep the selection and the
      id field in step. */
  lemma SelectAndReadKeepSelectionInForm(st: State, id: string, found: Response<seq<Movie>>, reload: Response<seq<Movie>>)
    requires SelectionInForm(st)
    ensures SelectionInForm(Selecting(st, id))
    ensures SelectionInForm(Clearing(st))
    ensures SelectionInForm(Listing(st, reload))
    ensures SelectionInForm(Searching(st, found).state)
  {
  }

  /** Every write keeps the selection and the id field in step. */
  lemma WritesKeepSelectionInForm(st: State, nibbles: seq<Nibble>, confirmed: bool,
                                  reply: Response<()>, reload: Response<seq<Movie>>)
    requires |nibbles| == UuidNibbles
    requires SelectionInForm(st)
    ensures SelectionInForm(Creating(st, nibbles, reply, reload).state)
    ensures SelectionInForm(Updating(st, reply, reload).state)
    ensures SelectionInForm(Deleting(st, confirmed, reply, reload).state)
  {
  }

  /** The client object: its fields are the state the commands update. */
  class MovieClient {
    var movies: seq<Movie>
    var selectedMovie: Option<string>
    /** The five input fields; the user's typing assigns it directly. */
    var form: Form
    var status: Status

    function Snapshot(): State
      reads this
    {
      State(movies, selectedMovie, form, status)
    }

    /** A client on a page whose inputs hold page; nothing loaded or selected. */
    constructor (page: Form)
      ensures Snapshot() == State([], None, page, Ready)
    {
      movies := [];
      selectedMovie := None;
      form := page;
      status := Ready;
    }

    method SelectMovie(id: string)
      modifies this
      ensures Snapshot() == Selecting(old(Snapshot()), id)
    {
      var found := Find(movies, id);
      if found.None? {
        return;
      }
      var movie := found.value;
      selectedMovie := Some(id);
      form := FormOf(movie);
      status := Showing(movie.title);
    }

    method ClearForm()
      modifies this
      ensures Snapshot() == Clearing(old(Snapshot()))
    {
      form := EmptyForm;
      selectedMovie := None;
      status := Cleared;
    }

    method GetAllMovies(reply: Response<seq<Movie>>) returns (sent: seq<Request>)
      modifies this
      ensures sent == [GetAll]
      ensures Snapshot() == Listing(old(Snapshot()), reply)
    {
      sent := [GetAll];
      if reply.Ok? {
        movies := reply.body;
        status := Loaded(|movies|);
      } else {
        status := Failed(FailureMessage(reply, "Failed to fetch movies"));
      }
    }

    method GetByTitle(reply: Response<seq<Movie>>) returns (sent: seq<Request>)
      modifies this
      ensures sent == Searching(old(Snapshot()), reply).sent
      ensures Snapshot() == Searching(old(Snapshot()), reply).state
    {
      var title := Trim(form.title);
      if title == "" {
        status := TitleRequired;
        return [];
      }
      sent := [Request.GetByTitle(title)];
      if reply.Ok? {
        movies := reply.body;
        status := Found(|movies|, title);
      } else {
        status := Failed(FailureMessage(reply, "Movie not found"));
      }
    }

    method CreateMovie(nibbles: seq<Nibble>, reply: Response<()>, reload: Response<seq<Movie>>)
      returns (sent: seq<Request>)
      requires |nibbles| == UuidNibbles
      modifies this
      ensures sent == Creating(old(Snapshot()), nibbles, reply, reload).sent
      ensures Snapshot() == Creating(old(Snapshot()), nibbles, reply, reload).state
    {
      ghost var before := Snapshot();
      var movie := ReadForm(form, true, nibbles);
      sent := [Post(movie)];
      if !reply.Ok? {
        status := Failed(FailureMessage(reply, "Failed to create movie"));
        return;
      }
      status := Created;
      ClearForm();
      assert Snapshot() == Clearing(before);
      var reloading := GetAllMovies(reload);
      sent := sent + reloading;
    }

    method UpdateMovie(reply: Response<()>, reload: Response<seq<Movie>>) returns (sent: seq<Request>)
      modifies this
      ensures sent == Updating(old(Snapshot()), reply, reload).sent
      ensures Snapshot() == Updating(old(Snapshot()), reply, reload).state
    {
      var id := Trim(form.id);
      if !IsValidUuid(id) {
        status := UpdateNeedsSelection;
        return [];
      }
      var movie := ReadForm(form, false, []);
      sent := [Put(movie)];
      if !reply.Ok? {
        status := Failed(FailureMessage(reply, "Failed to update movie"));
        return;
      }
      status := Updated;
      var reloading := GetAllMovies(reload);
      sent := sent + reloading;
    }

    method DeleteMovie(confirmed: bool, reply: Response<()>, reload: Response<seq<Movie>>)
      returns (sent: seq<Request>)
      modifies this
      ensures sent == Deleting(old(Snapshot()), confirmed, reply, reload).sent
      ensures Snapshot() == Deleting(old(Snapshot()), confirmed, reply, reload).state
    {
      var id := Trim(form.id);
      if !IsValidUuid(id) {
        status := DeleteNeedsSelection;
        return [];
      }
      if !confirmed {
        return [];
      }
      sent := [Delete(id)];
      if !reply.Ok? {
        status := Failed(FailureMessage(reply, "Failed to delete movie"));
        return;
      }
      status := Deleted;
      ClearForm();
      var reloading := GetAllMovies(reload);
      sent := sent + reloading;
    }
  }
}
