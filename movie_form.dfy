/**
 * The movie record and the edit form of the movie client, and the mapping
 * between them: readForm (form to record) and the form filling done when a
 * row is selected (record to form), plus the table row projection.
 */
module MovieForm {
  import opened Wrappers
  import opened JsString
  import opened Uuid

  /** A movie record. The budget is kept as the text of the budget field; its
      numeric parsing and formatting are not part of this model. */
  datatype Movie = Movie(id: string, title: string, actors: seq<string>, budget: Option<string>, description: string)

  /** The values of the five input fields txtId, txtTitle, txtActors, txtBudget
      and txtDescription. */
  datatype Form = Form(id: string, title: string, actors: string, budget: string, description: string)

  const EmptyForm := Form("", "", "", "", "")

  /** A name the actors field can yield: non-empty, without a comma, trimmed. */
  predicate IsActorName(a: string) {
    a != [] && ',' !in a && IsTrimmed(a)
  }

  /** The map step of the actors pipeline: every piece trimmed, in place. */
  function TrimEach(parts: seq<string>): (r: seq<string>)
    ensures |r| == |parts|
    ensures forall k :: 0 <= k < |r| ==> r[k] == Trim(parts[k])
  {
    if parts == [] then [] else [Trim(parts[0])] + TrimEach(parts[1..])
  }

  /** The filter step of the actors pipeline: the empty pieces dropped, the
      others kept in order. */
  function DropEmpty(parts: seq<string>): (r: seq<string>)
    ensures forall k :: 0 <= k < |r| ==> r[k] != [] && r[k] in parts
    ensures forall x :: x in parts && x != [] ==> x in r
    ensures forall x :: multiset(r)[x] == if x == [] then 0 else multiset(parts)[x]
  {
    if parts == [] then []
    else
      assert parts == [parts[0]] + parts[1..];
      if parts[0] == [] then DropEmpty(parts[1..])
      else [parts[0]] + DropEmpty(parts[1..])
  }

  /** The actors list readForm builds from the actors field: split on commas,
      trim each piece, drop the empty ones, keep the order. */
  function ParseActors(field: string): (actors: seq<string>)
    ensures forall k :: 0 <= k < |actors| ==> IsActorName(actors[k]) && Trim(actors[k]) == actors[k]
  {
    DropEmpty(TrimEach(Split(field, ',')))
  }

  predicate IsBlankOrComma(c: char) {
    c == ',' || IsWhitespace(c)
  }

  predicate IsBlankList(s: string) {
    forall i :: 0 <= i < |s| ==> IsBlankOrComma(s[i])
  }

  lemma BlankListAppend(a: string, b: string)
    ensures IsBlankList(a + b) <==> IsBlankList(a) && IsBlankList(b)
  {
    if IsBlankList(a) && IsBlankList(b) {
      forall i | 0 <= i < |a + b| ensures IsBlankOrComma((a + b)[i]) {
        if i >= |a| { assert (a + b)[i] == b[i - |a|]; }
      }
    }
    if IsBlankList(a + b) {
      forall i | 0 <= i < |a| ensures IsBlankOrComma(a[i]) {
        assert (a + b)[i] == a[i];
      }
      forall i | 0 <= i < |b| ensures IsBlankOrComma(b[i]) {
        assert (a + b)[i + |a|] == b[i];
      }
    }
  }

  /** A comma-joined text is blank exactly when every piece is. */
  lemma {:induction false} BlankJoin(parts: seq<string>)
    requires |parts| >= 1
    ensures IsBlankList(Join(parts, ",")) <==> forall k :: 0 <= k < |parts| ==> IsBlankList(parts[k])
    decreases |parts|
  {
    if |parts| > 1 {
      BlankJoin(parts[1..]);
      BlankListAppend(parts[0] + ",", Join(parts[1..], ","));
      BlankListAppend(parts[0], ",");
      assert forall k :: 1 <= k < |parts| ==> parts[k] == parts[1..][k - 1];
    }
  }

  /** A piece without a comma is blank exactly when it is all whitespace. */
  lemma PieceBlankIffWhitespace(piece: string)
    requires ',' !in piece
    ensures IsBlankList(piece) <==> AllWhitespace(piece)
  {
    if IsBlankList(piece) {
      forall i | 0 <= i < |piece| ensures IsWhitespace(piece[i]) {
        assert piece[i] in piece;
        assert IsBlankOrComma(piece[i]);
      }
    }
  }

  lemma DropEmptyNone(parts: seq<string>)
    ensures DropEmpty(parts) == [] <==> forall k :: 0 <= k < |parts| ==> parts[k] == []
  {
    var r := DropEmpty(parts);
    if r == [] {
      forall k | 0 <= k < |parts| ensures parts[k] == [] {
        assert parts[k] in parts;
      }
    }
  }

  /** The actors field yields no actor exactly when it holds nothing but
      commas and whitespace (the empty field included). */
  lemma NoActorsIffBlank(field: string)
    ensures ParseActors(field) == [] <==> IsBlankList(field)
  {
    var pieces := Split(field, ',');
    var trimmed := TrimEach(pieces);
    BlankJoin(pieces);
    DropEmptyNone(trimmed);
    forall k | 0 <= k < |pieces|
      ensures IsBlankList(pieces[k]) <==> trimmed[k] == []
    {
      PieceBlankIffWhitespace(pieces[k]);
    }
  }

  lemma {:induction false} TrimEachAppend(p: seq<string>, q: seq<string>)
    ensures TrimEach(p + q) == TrimEach(p) + TrimEach(q)
    decreases |p|
  {
    if p == [] {
      assert p + q == q;
    } else {
      assert (p + q)[1..] == p[1..] + q;
      TrimEachAppend(p[1..], q);
    }
  }

  lemma {:induction false} DropEmptyAppend(p: seq<string>, q: seq<string>)
    ensures DropEmpty(p + q) == DropEmpty(p) + DropEmpty(q)
    decreases |p|
  {
    if p == [] {
      assert p + q == q;
    } else {
      assert (p + q)[1..] == p[1..] + q;
      DropEmptyAppend(p[1..], q);
    }
  }

  /** The actors keep the order of the field: the actors before a comma come
      first, then the ones after it. With ParseOnlyPiece and NoActorsIffBlank
      this determines the whole list piece by piece. */
  lemma ParseActorsAtComma(a: string, b: string)
    ensures ParseActors(a + [','] + b) == ParseActors(a) + ParseActors(b)
  {
    var left, right := Split(a, ','), Split(b, ',');
    SplitAtSeparator(a, b, ',');
    TrimEachAppend(left, right);
    DropEmptyAppend(TrimEach(left), TrimEach(right));
  }

  /** What the actors field shows for a list: the names joined by ", ". */
  function ActorsText(actors: seq<string>): string {
    Join(actors, ", ")
  }

  lemma ActorsTextCons(actors: seq<string>)
    requires |actors| >= 2
    ensures ActorsText(actors) == actors[0] + [','] + (" " + ActorsText(actors[1..]))
  {
  }

  /** A first piece before a comma contributes its trimmed text, if any, ahead
      of what the rest yields. */
  lemma ParseFirstPiece(head: string, rest: string)
    requires ',' !in head && Trim(head) != []
    ensures ParseActors(head + [','] + rest) == [Trim(head)] + ParseActors(rest)
  {
    SplitAtFirstSeparator(head, rest, ',');
    var pieces := Split(rest, ',');
    assert ([head] + pieces)[1..] == pieces;
    var trimmed := TrimEach(pieces);
    assert TrimEach([head] + pieces) == [Trim(head)] + trimmed;
    assert ([Trim(head)] + trimmed)[1..] == trimmed;
  }

  /** A field without a comma yields its trimmed text, if any. */
  lemma ParseOnlyPiece(field: string)
    requires ',' !in field && Trim(field) != []
    ensures ParseActors(field) == [Trim(field)]
  {
    SplitWithoutSeparator(field, ',');
    assert TrimEach([field]) == [Trim(field)];
    assert DropEmpty([Trim(field)]) == [Trim(field)] by {
      assert [Trim(field)][1..] == [];
    }
  }

  /** Whitespace before an actor name adds no comma. */
  lemma NoCommaAfterIndent(w: string, a: string)
    requires AllWhitespace(w) && IsActorName(a)
    ensures ',' !in w + a
  {
    forall i | 0 <= i < |w + a| ensures (w + a)[i] != ',' {
      if i < |w| { assert IsWhitespace(w[i]); } else { assert (w + a)[i] == a[i - |w|]; }
    }
  }

  /** Reading back the shown text of a list of actor names gives the list,
      whatever whitespace precedes it. */
  lemma {:induction false} ParseIndentedActorsText(w: string, actors: seq<string>)
    requires AllWhitespace(w)
    requires forall k :: 0 <= k < |actors| ==> IsActorName(actors[k])
    ensures ParseActors(w + ActorsText(actors)) == actors
    decreases |actors|
  {
    if |actors| == 0 {
      assert w + ActorsText(actors) == w;
      NoActorsIffBlank(w);
    } else {
      var head := w + actors[0];
      NoCommaAfterIndent(w, actors[0]);
      TrimAfterWhitespace(w, actors[0]);
      if |actors| == 1 {
        assert w + ActorsText(actors) == head;
        ParseOnlyPiece(head);
      } else {
        var tail := actors[1..];
        ActorsTextCons(actors);
        assert w + ActorsText(actors) == head + [','] + (" " + ActorsText(tail));
        ParseFirstPiece(head, " " + ActorsText(tail));
        assert AllWhitespace(" ");
        ParseIndentedActorsText(" ", tail);
        assert actors == [actors[0]] + tail;
      }
    }
  }

  /** Reading the actors field after it was filled from a record gives the
      record's actors back. */
  lemma ParseActorsText(actors: seq<string>)
    requires forall k :: 0 <= k < |actors| ==> IsActorName(actors[k])
    ensures ParseActors(ActorsText(actors)) == actors
  {
    assert "" + ActorsText(actors) == ActorsText(actors);
    ParseIndentedActorsText("", actors);
  }

  /** The test scenario: "Leonardo DiCaprio, Tom Hardy" yields the two names. */
  lemma ActorsExample()
    ensures ParseActors("Leonardo DiCaprio, Tom Hardy") == ["Leonardo DiCaprio", "Tom Hardy"]
  {
    var actors := ["Leonardo DiCaprio", "Tom Hardy"];
    assert ActorsText(actors) == "Leonardo DiCaprio, Tom Hardy";
    assert IsActorName(actors[0]) && IsActorName(actors[1]);
    ParseActorsText(actors);
  }

  /** The budget field read as an optional value: empty means none. */
  function ReadBudget(field: string): Option<string> {
    if field == "" then None else Some(field)
  }

  /** What the budget field shows for a record's budget. */
  function BudgetText(budget: Option<string>): string {
    match budget
    case None => ""
    case Some(text) => text
  }

  /** A record as readForm can produce it: id, title and description trimmed,
      every actor a trimmed non-empty name without a comma, no empty budget. */
  predicate IsNormalized(m: Movie) {
    IsTrimmed(m.id) && IsTrimmed(m.title) && IsTrimmed(m.description)
    && (forall k :: 0 <= k < |m.actors| ==> IsActorName(m.actors[k]))
    && m.budget != Some("")
  }

  /** A valid identifier has no surrounding whitespace. */
  lemma ValidUuidIsTrimmed(id: string)
    ensures IsValidUuid(id) ==> IsTrimmed(id)
  {
    ValidUuidIsShape(id);
    if IsUuidShaped(id) {
      HexDigitIsNotWhitespace(id[0]);
      HexDigitIsNotWhitespace(id[35]);
    }
  }

  lemma HexDigitIsNotWhitespace(c: char)
    requires IsHexDigit(c)
    ensures !IsWhitespace(c)
  {
  }

  /** readForm: the record the form describes. Creating draws a fresh
      identifier from the nibbles and ignores the id field; updating takes the
      trimmed id field. */
  function ReadForm(form: Form, create: bool, nibbles: seq<Nibble>): (m: Movie)
    requires create ==> |nibbles| == UuidNibbles
    ensures create ==> IsValidUuid(m.id)
    ensures !create ==> m.id == Trim(form.id)
    ensures IsNormalized(m)
    ensures m.actors == [] <==> IsBlankList(form.actors)
    ensures m.budget == None <==> form.budget == ""
    ensures create ==> m.id == GenerateUuid(nibbles)
    ensures m.title == Trim(form.title) && m.description == Trim(form.description)
    ensures m.actors == ParseActors(form.actors) && m.budget == ReadBudget(form.budget)
  {
    var id := if create then GenerateUuid(nibbles) else Trim(form.id);
    ValidUuidIsTrimmed(id);
    NoActorsIffBlank(form.actors);
    Movie(id, Trim(form.title), ParseActors(form.actors), ReadBudget(form.budget), Trim(form.description))
  }

  /** Creating reads every field but the id field. */
  lemma CreateIgnoresIdField(form: Form, id: string, nibbles: seq<Nibble>)
    requires |nibbles| == UuidNibbles
    ensures ReadForm(form.(id := id), true, nibbles) == ReadForm(form, true, nibbles)
  {
  }

  /** The form filling done when a row is selected: each field shows the
      record's value, the actors joined by ", ". Read back, the actors field
      gives the list again when it is made of actor names, and the budget
      field gives the budget again unless that is the empty text. */
  function FormOf(m: Movie): (f: Form)
    ensures f.id == m.id && f.title == m.title && f.description == m.description
    ensures f.actors == Join(m.actors, ", ") && f.budget == BudgetText(m.budget)
    ensures (forall k :: 0 <= k < |m.actors| ==> IsActorName(m.actors[k]))
            ==> ParseActors(f.actors) == m.actors
    ensures m.budget != Some("") ==> ReadBudget(f.budget) == m.budget
  {
    assert (forall k :: 0 <= k < |m.actors| ==> IsActorName(m.actors[k]))
           ==> ParseActors(ActorsText(m.actors)) == m.actors by {
      if forall k :: 0 <= k < |m.actors| ==> IsActorName(m.actors[k]) {
        ParseActorsText(m.actors);
      }
    }
    Form(m.id, m.title, ActorsText(m.actors), BudgetText(m.budget), m.description)
  }

  /** Reading back a form filled from a normalized record gives the record. */
  lemma ReadFormOf(m: Movie)
    requires IsNormalized(m)
    ensures ReadForm(FormOf(m), false, []) == m
  {
    ParseActorsText(m.actors);
  }

  /** Filling the form from what it reads and reading again changes nothing. */
  lemma ReadFormIdempotent(form: Form, create: bool, nibbles: seq<Nibble>)
    requires create ==> |nibbles| == UuidNibbles
    ensures var m := ReadForm(form, create, nibbles);
            ReadForm(FormOf(m), false, []) == m
  {
    ReadFormOf(ReadForm(form, create, nibbles));
  }

  /** How many characters of a description a table row shows. */
  const DescriptionLimit := 50

  /** The description cell: the first 50 characters, followed by "..." exactly
      when the description is longer. */
  function DescriptionCell(d: string): (cell: string)
    ensures |d| <= DescriptionLimit ==> cell == d
    ensures |d| > DescriptionLimit ==> |cell| == DescriptionLimit + 3
                                       && cell[..DescriptionLimit] == d[..DescriptionLimit]
                                       && cell[DescriptionLimit..] == "..."
  {
    d[..if |d| < DescriptionLimit then |d| else DescriptionLimit] + if |d| > DescriptionLimit then "..." else ""
  }

  /** escapeHtml: the markup a text node serialises to. `&`, `<`, `>` and the
      no-break space become character references; every other character is
      kept. */
  function EscapeHtml(text: string): (html: string)
    ensures |html| >= |text|
    ensures (forall i :: 0 <= i < |text| ==> !IsSpecial(text[i])) ==> html == text
    ensures forall i :: 0 <= i < |html| ==> html[i] != '<' && html[i] != '>'
  {
    if text == [] then "" else EscapeChar(text[0]) + EscapeHtml(text[1..])
  }

  /** The characters a text node's serialisation replaces. */
  predicate IsSpecial(c: char) {
    c == '&' || c == '<' || c == '>' || c == '\U{00A0}'
  }

  /** One character of a text node's markup: a special character becomes a
      character reference `&...;`, any other character stays as it is. */
  function EscapeChar(c: char): (html: string)
    ensures !IsSpecial(c) ==> html == [c]
    ensures IsSpecial(c) ==> |html| >= 4 && html[0] == '&' && html[|html| - 1] == ';'
    ensures forall i :: 0 <= i < |html| ==> html[i] != '<' && html[i] != '>'
  {
    if c == '&' then "&amp;"
    else if c == '<' then "&lt;"
    else if c == '>' then "&gt;"
    else if c == '\U{00A0}' then "&nbsp;"
    else [c]
  }

  lemma {:induction false} EscapeHtmlAppend(a: string, b: string)
    ensures EscapeHtml(a + b) == EscapeHtml(a) + EscapeHtml(b)
    decreases |a|
  {
    if a == [] {
      assert a + b == b;
    } else {
      assert (a + b)[1..] == a[1..] + b;
      assert EscapeHtml(a + b) == EscapeChar(a[0]) + EscapeHtml(a[1..] + b);
      EscapeHtmlAppend(a[1..], b);
    }
  }

  /** A run of ampersands escapes to five characters apiece. */
  lemma {:induction false} EscapedAmpersands(n: nat)
    ensures |EscapeHtml(seq(n, _ => '&'))| == 5 * n
  {
    if n > 0 {
      assert seq(n, _ => '&')[1..] == seq(n - 1, _ => '&');
      EscapedAmpersands(n - 1);
    }
  }

  /** The description cell as renderMovies writes it: the escaped text is cut
      to 50 characters, but "..." depends on the length of the raw text. */
  function DescriptionCellAsWritten(d: string): (html: string)
    ensures |d| > DescriptionLimit ==> |html| == DescriptionLimit + 3
                                       && html[..DescriptionLimit] == EscapeHtml(d)[..DescriptionLimit]
                                       && html[DescriptionLimit..] == "..."
    ensures |d| <= DescriptionLimit ==> (html == EscapeHtml(d) <==> |EscapeHtml(d)| <= DescriptionLimit)
    ensures |d| <= DescriptionLimit
            ==> html == EscapeHtml(d)[..if |EscapeHtml(d)| < DescriptionLimit then |EscapeHtml(d)| else DescriptionLimit]
  {
    var escaped := EscapeHtml(d);
    escaped[..if |escaped| < DescriptionLimit then |escaped| else DescriptionLimit]
      + if |d| > DescriptionLimit then "..." else ""
  }

  /** Eleven ampersands are short enough to get no "...", yet their escaped
      form is 55 characters long: the cell shows ten of them and hides the
      cut. */
  lemma AsWrittenHidesCut()
    ensures var d := seq(11, _ => '&');
            |d| <= DescriptionLimit
            && |DescriptionCellAsWritten(d)| == DescriptionLimit
            && DescriptionCellAsWritten(d) != EscapeHtml(d)
    ensures DescriptionCellAsWritten(seq(11, _ => '&')) == EscapeHtml(seq(10, _ => '&'))
  {
    assert seq(11, _ => '&') == seq(10, _ => '&') + ['&'];
    EscapeHtmlAppend(seq(10, _ => '&'), ['&']);
    EscapedAmpersands(10);
    EscapedAmpersands(11);
  }

  /** The description cell's markup when the raw text is cut before escaping:
      a description of up to 50 characters is shown whole, a longer one as
      its first 50 characters followed by "...". */
  function DescriptionHtml(d: string): (html: string)
    ensures |d| <= DescriptionLimit ==> html == EscapeHtml(d)
    ensures |d| > DescriptionLimit ==> html == EscapeHtml(d[..DescriptionLimit]) + "..."
  {
    var cell := DescriptionCell(d);
    if |d| > DescriptionLimit then
      assert cell == cell[..DescriptionLimit] + "...";
      EscapeHtmlAppend(cell[..DescriptionLimit], "...");
      EscapeHtml(cell)
    else
      EscapeHtml(cell)
  }

  /** One table row as markup: the id as it is, the escaped title and actors
      text, the description cell, and whether the row is shown as selected.
      The description cell is the corrected DescriptionHtml; the markup the
      source writes is DescriptionCellAsWritten. */
  datatype Row = Row(id: string, title: string, actors: string, description: string, highlighted: bool)

  function RowOf(m: Movie, selected: Option<string>): Row {
    Row(m.id, EscapeHtml(m.title), EscapeHtml(ActorsText(m.actors)), DescriptionHtml(m.description),
        selected == Some(m.id))
  }

  /** renderMovies as a projection: one row per record, in list order; a row
      is highlighted exactly when its id is the selected one. */
  function Rows(movies: seq<Movie>, selected: Option<string>): (rows: seq<Row>)
    ensures |rows| == |movies|
    ensures forall k :: 0 <= k < |rows| ==> rows[k] == RowOf(movies[k], selected)
    ensures forall k :: 0 <= k < |rows| ==>
              rows[k].id == movies[k].id && rows[k].title == EscapeHtml(movies[k].title)
              && (rows[k].highlighted <==> selected == Some(movies[k].id))
  {
    if movies == [] then [] else [RowOf(movies[0], selected)] + Rows(movies[1..], selected)
  }
}
