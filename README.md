# MovieClient in Dafny

A model of the browser client `MovieClient` (app.js). The client keeps a list
of movie records, an optional selected id, five form fields (id, title,
actors, budget, description) and a status line, and talks to a REST movie API.
The model covers what the client itself decides:

- **Identifier validation and generation** (`Uuid`). `isValidUUID` is an
  anchored token pattern (8-4-4-4-12 hex digits, either case). `generateUUID`
  fills the template `xxxxxxxx-xxxx-4xxx-yxxx-xxxxxxxxxxxx` from 31 random
  nibbles. The nibbles are an input, and every `y` becomes `r & 0x3 | 0x8`,
  the variant of section 4.1.1 of RFC 4122.
- **String primitives** (`JsString`). `String.prototype.trim` uses the
  ECMAScript WhiteSpace and LineTerminator characters. `split` takes a
  one-character separator and `Array.prototype.join` is modelled alongside it.
- **Form and record** (`MovieForm`). `readForm` is modelled as a function.
  On normalized records (trimmed fields, actor names, no empty budget text)
  it is a left inverse of the form filling done by `selectMovie`: reading the
  filled form gives the record back, as long as the fields hold exactly the
  text assigned to them (see Left out). The other way round does not hold: a
  form whose fields carry surrounding whitespace, or whose actors text is not
  joined by `", "`, is not what filling the form from its own reading shows.
  The actors pipeline is split on `,`, trim, then drop empty pieces. The
  table rows come from `renderMovies` as markup, with `escapeHtml` and the
  50-character description cell.
- **The client state machine** (`Client`). `class MovieClient` holds the
  fields `movies`, `selectedMovie`, `form` and `status`. Its methods
  `SelectMovie`, `ClearForm`, `GetAllMovies`, `GetByTitle`, `CreateMovie`,
  `UpdateMovie` and `DeleteMovie` update those fields as the source does.
  Each method returns the requests it sends, in order. Each method is proved
  equal to a specification function on `State` values (`Selecting`,
  `Clearing`, `Listing`, `Searching`, `Creating`, `Updating`, `Deleting`).
  The lemmas state the properties of those functions.

Inputs that are I/O in the source are parameters:

- the outcome of each HTTP request (`Response`: `Ok(body)`, `NotOk` for a
  status outside 2xx, or `Thrown(message)` for a network or JSON failure);
- the answer to `confirm`;
- the random nibbles.

The user's typing into the inputs is an assignment to the public `form`
field. A command whose success triggers a reload (`this.getAllMovies()`,
which is not awaited) takes that reload's outcome too. The model then applies
the reload after the command's own synchronous steps, `clearForm` included.

Three behaviours of the code are easy to misread:

- A failed request does change the status line (`Error: ...`). What it leaves
  unchanged is the list, the selection and the form.
- A blank search sets the status "Please enter a title to search", though it
  sends nothing.
- A declined delete changes nothing at all.

## Model

| member | source | states |
|---|---|---|
| JsString.Trim | app.js:163 | the result has no leading or trailing ECMAScript whitespace, holds only characters of the input, is empty exactly when the input is all whitespace, and is the input itself when that is already trimmed |
| JsString.TrimIsInfix | app.js:163 | trim removes only whitespace, and only at the two ends: the result is a contiguous slice of the input with whitespace on both sides |
| JsString.Split | app.js:164-165 | `split(',')` yields at least one piece, no piece contains the separator, and joining the pieces with the separator gives the input back |
| JsString.SplitOfJoin | app.js:164-165 | splitting a join of separator-free pieces gives the pieces back |
| JsString.SplitAtSeparator | app.js:164-165 | splitting at any separator gives the pieces of the left side followed by the pieces of the right side |
| Uuid.IsValidUuid | app.js:244-247 | the anchored pattern accepts only strings of 36 characters |
| Uuid.ValidUuidIsShape | app.js:244-247 | `isValidUUID(s)` holds exactly when `s` has 36 characters, `-` at 8, 13, 18 and 23, and a hex digit of either case everywhere else |
| Uuid.AnyDigitAccepted | app.js:244-247 | version and variant are not checked: any hex digit may replace any digit of a valid id (so the nil UUID of the test at tests/essential.test.js:89 passes) |
| Uuid.WrongLengthRejected | tests/essential.test.js:97-110 | every string whose length is not 36 is rejected, the empty string, `123`, and ids one digit short or long included |
| Uuid.MissingHyphenRejected | tests/essential.test.js:97-110 | any other character at a hyphen position, such as `_`, is rejected |
| Uuid.HexChar | app.js:253 | `v.toString(16)` of a nibble is one lower-case hex digit whose value is the nibble |
| Uuid.VariantNibble | app.js:252 | `r & 0x3 \| 0x8` lies in 8..11 and keeps the two low bits of `r` |
| Uuid.Digit | app.js:252-253 | an `x` becomes a hex digit; a `y` becomes one of `8`, `9`, `a`, `b` |
| Uuid.Fill | app.js:250-254 | the replace keeps the length and every non-placeholder character, puts a hex digit at each `x` and `8`/`9`/`a`/`b` at each `y` |
| Uuid.FillDraws | app.js:250-254 | placeholders draw left to right: the one at position i takes the draw numbered by the placeholders before it |
| Uuid.TemplateText | app.js:250 | the template is the literal `xxxxxxxx-xxxx-4xxx-yxxx-xxxxxxxxxxxx` |
| Uuid.TemplateCount | app.js:250-251 | filling the template draws exactly 31 nibbles |
| Uuid.GenerateUuid | app.js:249-255 | for every 31 nibbles, the generated id has 36 characters, passes `isValidUUID`, has `4` at index 14 and one of `8`, `9`, `a`, `b` at index 19 |
| MovieForm.TrimEach | app.js:166 | the map keeps the length and trims each piece in place |
| MovieForm.DropEmpty | app.js:167 | the filter keeps only non-empty pieces, all of them, and nothing that was not a piece; each non-empty piece occurs in the result as often as in the input (with DropEmptyAppend, the order is kept too) |
| MovieForm.ParseActors | app.js:164-167 | every parsed actor is non-empty, has no comma and equals its own trim |
| MovieForm.NoActorsIffBlank | app.js:164-167 | the list is empty exactly when the field holds only commas and whitespace, the empty field included (tests/essential.test.js:61-70) |
| MovieForm.ParseOnlyPiece | app.js:164-167 | a field without a comma yields its trimmed text when that is not empty |
| MovieForm.ParseActorsAtComma | app.js:164-167 | input order is kept: the actors before a comma come first, then those after it |
| MovieForm.ParseActorsText | app.js:164-167 | reading the `", "`-joined text of a list of actor names gives the list back |
| MovieForm.ActorsExample | tests/essential.test.js:48-55 | `Leonardo DiCaprio, Tom Hardy` yields the two names in order |
| MovieForm.ReadForm | app.js:160-171 | creating yields the id generated from the nibbles, a valid one; updating yields the trimmed id field; title and description are the trimmed fields; actors are the parsed actors field, names only, none exactly when the field is blank; the budget is the budget field's text, none exactly when that is empty |
| MovieForm.CreateIgnoresIdField | app.js:162 | when creating, the id field's content does not affect the record |
| MovieForm.FormOf | app.js:203-207 | the filled form shows the record's id, title and description, the actors joined by `", "` and the budget's text; its actors field reads back as the record's list when that is made of actor names; its budget field reads back as the record's budget unless that is the empty text |
| MovieForm.ReadFormOf | app.js:203-207 | reading back the form filled from a normalized record gives that record |
| MovieForm.ReadFormIdempotent | app.js:160-171 | filling the form from what it reads and reading again changes nothing |
| MovieForm.DescriptionCell | app.js:190 | a description of up to 50 characters is shown whole; a longer one as its first 50 characters followed by `...` |
| MovieForm.EscapeChar | app.js:238-242 | `&`, `<`, `>` and the no-break space become a character reference `&...;`; any other character is kept; no `<` or `>` is left |
| MovieForm.EscapeHtml | app.js:238-242 | escaping never shortens the text, leaves a text without those four characters as it is, and leaves no `<` or `>` in the markup |
| MovieForm.DescriptionCellAsWritten | app.js:190 | as written, a raw description over 50 characters gives the first 50 characters of its escaped text and `...`; a shorter one gives the first 50 characters of its escaped text (all of it when it fits) and never `...` |
| MovieForm.DescriptionHtml | app.js:190 | the cell's markup when the raw text is cut before escaping: the whole escaped description, or the escaped first 50 characters and `...` |
| MovieForm.AsWrittenHidesCut | app.js:190 | as written, eleven `&` give a cell equal to the escaped text of ten `&`, with no `...` to mark the cut |
| MovieForm.Rows | app.js:177-190 | one row per record in list order, each the record's row: its id, its escaped title and actors text, the description cell, and highlighting exactly when its id is the selected one |
| Client.SeverityOf | app.js:225-228 | the class shown with a status: error exactly for the blank search, the two missing selections and the failures; success exactly for the loads, the search result and the three completed writes |
| Client.Find | app.js:198 | `find` by id returns nothing exactly when no record has the id, otherwise the first record that has it |
| Client.MovieClient.constructor | app.js:2-10 | a new client has no movies, no selection, the page's form fields and the ready status |
| Client.MovieClient.SelectMovie | app.js:197-211 | the new state is `Selecting` of the old one |
| Client.MovieClient.ClearForm | app.js:213-223 | the new state is `Clearing` of the old one |
| Client.MovieClient.GetAllMovies | app.js:48-60 | sends one list request; the new state is `Listing` of the old one and the response |
| Client.MovieClient.GetByTitle | app.js:62-80 | the requests and the new state are those of `Searching` |
| Client.MovieClient.CreateMovie | app.js:82-103 | the requests and the new state are those of `Creating` |
| Client.MovieClient.UpdateMovie | app.js:105-131 | the requests and the new state are those of `Updating` |
| Client.MovieClient.DeleteMovie | app.js:133-158 | the requests and the new state are those of `Deleting` |
| Client.SelectingFirstMatch | app.js:197-207 | selecting an id present in the list selects it, fills the form from the first record with that id and leaves the list alone |
| Client.SelectingMissing | app.js:198-199 | selecting an id absent from the list leaves the whole state unchanged |
| Client.SelectThenUpdatePutsSelected | app.js:105-120 | selecting a normalized record with a valid id and then updating sends exactly that record |
| Client.SelectThenDeleteSendsId | app.js:133-145 | selecting a record with a valid id and confirming a delete sends a delete of that id |
| Client.ClearedFormBlocksWrites | app.js:105-138 | after clearing, update and delete send nothing and ask for a selection |
| Client.UpdateGuard | app.js:105-110 | update sends a request exactly when the trimmed id field is a valid id; otherwise only the status changes |
| Client.DeleteGuard | app.js:133-142 | delete sends a request exactly when the trimmed id is valid and the user confirms; a declined delete changes nothing |
| Client.SearchGuard | app.js:62-73 | search sends one request for the trimmed title unless that is blank; a blank title changes only the status; a successful response becomes the list |
| Client.CreatePostsFreshRecord | app.js:82-92 | create posts the record read from the form, whose id is a valid generated id whatever the id field held |
| Client.FailedWriteKeepsData | app.js:94-156 | a failed create, update or delete leaves list, selection and form unchanged and shows the failure message |
| Client.SuccessfulWriteReloads | app.js:94-153 | a successful write sends its own request and then one reload, whose list replaces the old one; create posts the record read from the form; create and delete clear form and selection, update keeps both |
| Client.ReadRefusalsShowErrors | app.js:51-79 | a blank search and a failed list or search end with an error status; a failed list or search changes only the status, leaving list, selection and form as they were |
| Client.CreateFailureShowsError | app.js:94-101 | a failed create ends with an error status |
| Client.UpdateRefusalShowsError | app.js:105-129 | an update stopped by its guard, or failed, ends with an error status |
| Client.DeleteRefusalShowsError | app.js:133-156 | a confirmed delete stopped by its guard, or failed, ends with an error status |
| Client.SelectHighlightsRows | app.js:177-183 | after a selection, exactly the rows carrying the selected id are highlighted |
| Client.SelectAndReadKeepSelectionInForm | app.js:197-223 | select, clear, list and search keep the selected id equal to the id field |
| Client.WritesKeepSelectionInForm | app.js:82-158 | create, update and delete keep the selected id equal to the id field |

## Left out

- Network I/O: `fetch`, the base URL, `encodeURIComponent`, headers, JSON
  (de)serialisation and status codes. A `Request` records the kind of request
  and its payload; a `Response` records only the outcome.
- Concurrency: the reload that create, update and delete start without
  awaiting it. The model applies its response after the command's own
  synchronous steps and before any other action. The intermediate statuses
  ("Movie created successfully!", "Form cleared") are therefore overwritten by
  the reload's status. Other orderings of responses are not modelled.
- Client.MovieClient.CreateMovie, Client.MovieClient.DeleteMovie: clear the
  form before applying the reload, while the source starts the reload's
  request before `clearForm` (app.js:97-98, 152-153). Only the order of the
  request and of the response matter, so the state is the same.
- MovieForm.Rows: the description column is the corrected cell
  `DescriptionHtml`, not the markup the source writes,
  `DescriptionCellAsWritten`; the two differ as shown under Findings.
- DOM plumbing: `initializeElements`, `bindEvents` (a row click calls
  `selectMovie` with the row's id), the row background colour, and the budget
  cell. `Rows` gives the other cells as markup strings.
- showStatus: the message texts are the `Status` constructors and the CSS
  class is `SeverityOf`. The 3-second auto-hide timer is not modelled.
- MovieForm.ReadForm: the budget is kept as the field's text (`None` when
  empty). `parseFloat`, `toLocaleString` and the falsy check
  `movie.budget || ''` are floating-point and locale behaviour, not modelled.
- MovieForm.ReadFormOf, Client.SelectThenUpdatePutsSelected: a form field
  is taken to hold exactly the text assigned to it. Browsers change some
  assigned text: a text input drops line feeds and carriage returns, and a
  textarea turns CR LF into LF. So a record whose title holds a line break
  does not read back unchanged, and the update after selecting it sends the
  altered title. The budget is kept as text, so the falsy check
  `movie.budget || ''` is not modelled either: a record whose budget is the
  number 0 fills an empty budget field, reads back with no budget, and the
  update after selecting it sends `budget: null`.
- MovieForm.FormOf: records always have all their fields, so the fallbacks
  `movie.title || ''`, `movie.actors || []` and `movie.description || ''` for
  absent fields are not modelled.
- `Math.random`: replaced by the input sequence of nibbles.
- Strings are sequences of Unicode characters, not UTF-16 code units, so a
  description's length of 50 counts characters.
- `console.error` logging.
- The stub copies of `readForm` and `isValidUUID` in tests/essential.test.js
  are test fixtures. Their expected outputs are used as statements, not their
  code.
- Client.SelectAndReadKeepSelectionInForm, Client.WritesKeepSelectionInForm:
  the user can edit the id field after a selection, so the invariant holds
  across commands but not across typing.

## Findings

| source | as written | input that shows it | evidently intended | confidence | as-written member | corrected member |
|---|---|---|---|---|---|---|
| app.js:190 | the description cell cuts the escaped text to 50 characters, but adds `...` only when the raw text is longer than 50 | a description of eleven `&`: it escapes to 55 characters, so the cell shows ten `&` and no `...` | cut the raw text to 50 characters, then escape it, and add `...` exactly when something was cut | medium, not executed | MovieForm.AsWrittenHidesCut | MovieForm.DescriptionHtml |
