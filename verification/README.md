# Book library demo: a Dafny model of its decision and update rules

The repository is a small React book library with a user portal and an admin
portal, backed by a JSON server, plus `fix-urls.js`, a Node script that
rewrites hard-coded backend URLs in the source tree. This project models the
logic buried in the components' event handlers and the rewriting script as
total functions over immutable values. Every I/O outcome is an input:

- an HTTP request is `Reply<T>`: `Ok(body)` for a 2xx response with its parsed
  body, `NotOk` for a response with another status, and `NetworkError` for a
  rejected request (a 2xx whose body is not JSON fails on the same path);
- `window.confirm` is a boolean;
- the static `data.json` fallback is `LocalReply`;
- the file system seen by `fix-urls.js` is a tree of `Entry` values whose files
  carry what `readFileSync` returns and whether `writeFileSync` succeeds, and
  whose directories say whether `readdirSync` succeeds. Every file entry is a
  distinct file: symbolic and hard links that make two entries share one file
  are not modelled.

Ids are one type, `Id = string`, compared with `==` as the code compares them
with `===`; no coercion between numbers and strings is modelled.

Modules:

- `Common`: `Option`, `Reply`, `Id`, JavaScript truthiness of an optional string,
  and `Update` (the list a handler leaves in state plus the alert it shows).
- `Text`: the JavaScript string operations the code uses (`indexOf` with its
  position clamping, `lastIndexOf`, `includes`, `startsWith`, `endsWith`,
  `join`), a literal global replace, and `split` as its reference definition.
- `Records`: the three list updates (`filter` by id, `map` replacing by id,
  append) shared by the views.
- `Routes`: the admin test on the pathname and the paths the views build.
- `BookList`, `Readbook`, `Cart`, `Users`, `Login`: one module per component.
- `FixUrls`: `replaceInFile` and `processFolder`.

The pattern 2 and 3 regular expressions of `fix-urls.js` are modelled exactly
as match counters. It is proved that they never match once pass 1 has run,
because both need the literal URL that pass 1 has just replaced. Their
rewriting is therefore never applied and is not modelled. A consequence is
that a URL written inside single or double quotes ends up as `${API_URL}`
inside those same quotes, which JavaScript does not interpolate; only URLs
already inside template literals become working references.

## Model

| member | source | states |
|---|---|---|
| Text.IndexOf | fix-urls.js:60-61 | the result is -1 or the first occurrence at or after the position clamped into the string; no occurrence lies between the clamped start and the result |
| Text.LastIndexOf | fix-urls.js:59 | the result is -1 or an occurrence, and no occurrence starts after it |
| Text.Contains | fix-urls.js:16 | `includes` holds exactly when the pattern occurs at some position |
| Text.StartsWith | src/Book.jsx:8 | `startsWith` holds exactly when the prefix occurs at position 0 |
| Text.EndsWith | fix-urls.js:97 | `endsWith` holds exactly when the suffix occurs at the last possible position |
| Text.ReplaceAll | fix-urls.js:30 | the literal global replace keeps the length when pattern and replacement are equally long and never grows when the replacement is no longer; its content is fixed by `Text.ReplaceAllIsSplitJoin` |
| Text.ReplaceAllIsSplitJoin | fix-urls.js:28-30 | the literal global replace equals splitting on the pattern and joining with the replacement |
| Text.SplitJoinRoundTrip | fix-urls.js:28-30 | joining the pieces of a split with the separator gives back the original string |
| Text.SplitPiecesAvoidSeparator | fix-urls.js:28-30 | no piece of a split contains the separator |
| Text.ReplaceAllFirst | fix-urls.js:30 | the first occurrence is replaced by the replacement, the text before it is kept, and the text after it is replaced on its own |
| Text.SplitFirst | fix-urls.js:28-30 | splitting at the first occurrence yields the text before it followed by the pieces of the rest, so any join puts the separator exactly there |
| Text.ReplaceAllNoMatch | fix-urls.js:29-30 | replacing in a string without the pattern leaves it unchanged |
| Text.ReplaceAllRemovesAll | fix-urls.js:28-30 | with a replacement sharing no character with the pattern, no occurrence of the pattern is left |
| Text.ReplaceAllSkips | fix-urls.js:30 | a prefix without an occurrence is copied unchanged in front of the rest's replacement |
| Text.ReplaceAllPrefixKept | fix-urls.js:30 | a prefix of the output that has no replacement character is the same prefix of the input |
| Text.ReplaceAllAround | fix-urls.js:28-30 | for a pattern that cannot overlap itself, an occurrence after an occurrence-free prefix is replaced on its own, the prefix kept and the rest replaced independently |
| Text.NotContainsSlice | fix-urls.js:63-65 | a slice of a string without the pattern does not contain it |
| Text.NotContainsAround | fix-urls.js:63-65 | joining two pattern-free strings around a character foreign to the pattern creates no occurrence |
| Text.JoinSnoc | src/Readbook.jsx:74 | joining one more part appends the separator and that part |
| Text.Join | src/Readbook.jsx:74 | joining no parts gives the empty string and joining one part gives that part unchanged, with no separator |
| Text.JoinLength | src/Readbook.jsx:74 | a non-empty join is as long as the parts plus one separator between each pair of neighbours |
| Records.Without | src/Book.jsx:73 | `filter(x => x.id !== id)` keeps only records with another id, and keeps every such record |
| Records.WithoutLength | src/Book.jsx:73 | the filtered list is shorter by exactly the number of records carrying the id |
| Records.WithoutAppend | src/Book.jsx:73 | filtering distributes over concatenation, so kept records stay in their order |
| Records.WithoutAbsent | src/Addtocart.jsx:25 | a list with no record carrying the id is unchanged |
| Records.WithoutIdempotent | src/components/Admin/User.jsx:21 | filtering the same id twice equals filtering once |
| Records.CountIdAt | src/Addtocart.jsx:25 | a record at a known position with the id makes the count positive |
| Records.CountIdAll | src/components/Admin/User.jsx:21 | the count equals the length exactly when every record carries the id |
| Records.ReplaceWhere | src/Book.jsx:118-120 | the `map` keeps the length, puts the new record at each position holding the id and keeps every other record |
| Records.ReplaceThenWithout | src/Book.jsx:118-120 | replacing by a record with the same id, then filtering the id, equals filtering it directly |
| Routes.UserRootIsNotAdmin | src/Readbook.jsx:13 | a path under `/userportal` is never an admin path |
| Routes.IsAdmin | src/Book.jsx:8 | the admin test holds exactly when `/adminportal` occurs at position 0 of the pathname |
| Routes.UnderPortal | src/Book.jsx:8 | a path under the selected portal root is an admin path exactly when the admin root was selected |
| Routes.ReadbookPath | src/Book.jsx:128-134 | the detail path stays in the requested portal, starts with its root, ends with `/readbook/<id>` and has no other characters |
| Routes.BooksPath | src/Readbook.jsx:31-39 | the list path stays in the requested portal, starts with its root, ends with `/books` and has no other characters |
| BookList.FetchBooks | src/Book.jsx:23-56 | loading ends; the error is cleared exactly when the backend answered ok; the data is the backend list or else the snapshot books, and the fixed error message stays set even when the snapshot loads |
| BookList.Render | src/Book.jsx:136-182 | loading wins over the error, the error over the list, an empty list shows the "no books" branch, the error view shows the state's error message, and the grid shows the data with its count |
| BookList.MountShowsLoading | src/Book.jsx:10-12 | the state on mount renders the loading branch |
| BookList.BackendFailureShowsError | src/Book.jsx:35-43 | a failed backend always ends on the connection-error view, whatever the snapshot held |
| BookList.BackendListShown | src/Book.jsx:26-34 | a backend list is shown as it came, or as "no books" when it is empty |
| BookList.Remove | src/Book.jsx:59-82 | nothing happens outside the admin portal or when declined; an ok DELETE drops exactly the books with that id with the success alert; any other outcome keeps the list with the failure alert |
| BookList.RemoveKeepsOrder | src/Book.jsx:71-74 | the surviving books keep their relative order |
| BookList.AddBook | src/Book.jsx:85-103 | an ok POST appends the created book after an unchanged prefix and returns it; anything else changes nothing and returns nothing |
| BookList.UpdateBook | src/Book.jsx:106-126 | an ok PUT replaces exactly the books with the id, keeping length and every other book; anything else changes nothing |
| BookList.AddThenRemove | src/Book.jsx:59-103 | deleting a just-created book with a fresh id restores the list as it was before the add |
| BookList.UpdateThenRemove | src/Book.jsx:59-126 | an update that keeps the id touches only the books with that id |
| BookList.Navigate | src/Book.jsx:128-134 | the detail path is exactly the portal root the list is shown in followed by `/readbook/<id>`: it starts with that root, ends with that suffix and is no longer than both |
| Readbook.InCart | src/Readbook.jsx:42 | `cart.some(item => item.cartid === id)` holds exactly when some row's `cartid` is the id |
| Readbook.AddToCart | src/Readbook.jsx:40-55 | a book whose id is some row's `cartid` posts nothing and only alerts `Book already in Cart!`; otherwise exactly `{cartid, cartimage, carttitle}` is posted, `book to cart` is alerted and the view moves to the user cart page |
| Readbook.AddBookToCart | src/Readbook.jsx:88-95 | the button adds the shown book: blocked exactly when its id is some row's `cartid`, and otherwise posts the book's id, thumbnail and title |
| Readbook.ReloadedCartBlocksDuplicate | src/Readbook.jsx:21-29 | the guard only fires once the stored row is in the cart as loaded, under whatever row id the backend gave it |
| Readbook.AuthorLine | src/Readbook.jsx:74 | a non-array value is shown as it is, an absent one and an empty array as nothing, a one-name array as that name, and a non-empty array takes the names' length plus two characters per `", "` |
| Readbook.AuthorLineAppend | src/Readbook.jsx:74 | one more author extends the line by `", "` and that name |
| Readbook.Buttons | src/Readbook.jsx:80-95 | Back is always shown; Add to Cart is shown exactly outside the admin portal |
| Readbook.GoBack | src/Readbook.jsx:31-39 | the list path is exactly the portal root the view is in followed by `/books`: it starts with that root, ends with that suffix and is no longer than both |
| Cart.RemoveFromCart | src/Addtocart.jsx:18-32 | declining keeps the rows with the "not removed" alert; a rejected DELETE keeps them silently; a resolved DELETE, whatever its status, drops exactly the rows whose row `id` is the id, with the "removed" alert |
| Cart.RemoveRow | src/Addtocart.jsx:47-50 | the Remove button of a row: declining alerts "not removed", a rejected DELETE changes nothing, and otherwise the clicked row disappears with the "removed" alert and the list shrinks, while rows holding the same book under another row id stay |
| Cart.RemoveFromCartKeepsOrder | src/Addtocart.jsx:25 | removal distributes over concatenation, so the kept rows stay in their order and each appears as often as before |
| Cart.TotalAfterRemove | src/Addtocart.jsx:36 | the header count drops by the number of rows with the removed id |
| Users.OrNotAvailable | src/components/Admin/User.jsx:45 | a field line is never blank: a truthy value shows through, and a missing or empty one falls back to `not available` |
| Users.Card | src/components/Admin/User.jsx:40-48 | a card never has a blank phone or address line, and its other fields are the user's own |
| Users.Cards | src/components/Admin/User.jsx:38 | one card per user, in order |
| Users.RenderUsers | src/components/Admin/User.jsx:16-33 | the empty heading exactly when there are no users; otherwise the header counts the users and each gets its card |
| Users.RemoveUser | src/components/Admin/User.jsx:18-23 | a rejected DELETE changes nothing; a resolved one keeps exactly the users with another id |
| Users.RemoveUserKeepsOrder | src/components/Admin/User.jsx:21 | removal distributes over concatenation, so the kept users stay in their order and each appears as often as before |
| Users.RemoveEmptiesView | src/components/Admin/User.jsx:16-28 | a resolved removal empties the view exactly when every listed user had that id |
| Login.UserLogin | src/Userlogin.jsx:15-23 | an empty field gives the missing-input alert, exactly `User`/`User123` enters `/userportal`, and every other pair gives the invalid-credentials alert; exactly one happens |
| Login.AdminLogin | src/Adminlogin.jsx:15-23 | an empty field gives the missing-input alert, exactly `Admin`/`Admin123` enters `/adminportal`, and every other pair gives the invalid-credentials alert; exactly one happens |
| Login.CredentialsDoNotCross | src/Adminlogin.jsx:18-22 | each form rejects the other form's credentials, and matching is case-sensitive |
| FixUrls.AlreadyUpdated | fix-urls.js:16-19 | the skip rule holds exactly for `Book.jsx` or `Readbook.jsx` whose text contains `API_URL` or `isProduction` |
| FixUrls.FirstPass | fix-urls.js:28-30 | pass 1 equals split-on-URL then join-with-`${API_URL}`, leaves no URL, and is the identity on text without the URL |
| FixUrls.UrlAndRefDisjoint | fix-urls.js:28-30 | `${API_URL}` shares no character with `http://localhost:4000` |
| FixUrls.UrlBorderFree | fix-urls.js:28 | two occurrences of `http://localhost:4000` never overlap |
| FixUrls.FirstPassAround | fix-urls.js:28-30 | pass 1 replaces the URL where it stands and keeps everything around it, including the quote before it |
| FixUrls.QuotedUrlStaysQuoted | fix-urls.js:28-51 | `fetch('http://localhost:4000/cart')` becomes `fetch('${API_URL}/cart')`, still in single quotes |
| FixUrls.FirstQuoteFrom | fix-urls.js:36 | finds the first quote at or after a position, where the greedy class `[^'"`]` stops |
| FixUrls.MatchAt | fix-urls.js:36-45 | a match of pattern 2 or 3 ends inside the string and has the URL at its fixed offset |
| FixUrls.CountMatches | fix-urls.js:36-51 | the number of non-overlapping matches from a position is at most the characters left, and is 0 for text without the URL |
| FixUrls.NewlineSearch | fix-urls.js:61 | `indexOf("\n", p)` is -1 exactly when no newline follows the clamped position, and otherwise is the first one |
| FixUrls.ImportEndLine | fix-urls.js:59-61 | the insertion point is one past the first newline at or after the first `from` that follows the last `import`; with no `import` the `from` search starts at 0; with no such `from` the newline search starts at 0, so the block goes after the file's first newline; with no newline found the point is 0 |
| FixUrls.Splice | fix-urls.js:63-65 | the prefix is kept, then the block, then the suffix, and the length grows by the block's length |
| FixUrls.AvoidsFourHasNoUrl | fix-urls.js:55-56 | text without the character `4` cannot hold the URL |
| FixUrls.DeclarationHasNoUrl | fix-urls.js:55-56 | the two declaration lines do not contain `http://localhost:4000` |
| FixUrls.SpliceKeepsUrlOut | fix-urls.js:63-65 | splicing the declaration into URL-free text creates no URL |
| FixUrls.RewriteContent | fix-urls.js:24-68 | at most one change is counted, exactly when the URL was present; no URL is left; the declaration is spliced in exactly when there was a change and neither `const API_URL` nor `API_URL =` is present |
| FixUrls.ReplaceInFile | fix-urls.js:10-81 | it returns true exactly when something is written, which is when the file is read, not skipped, holds the URL and the write succeeds; what is written is the rewrite and holds no URL |
| FixUrls.SkippedFileUntouched | fix-urls.js:16-22 | `Book.jsx` or `Readbook.jsx` already using `API_URL` or `isProduction` returns false and is not written |
| FixUrls.ReplaceInFileIdempotent | fix-urls.js:10-81 | rewriting what was written reports no change |
| FixUrls.IsScript | fix-urls.js:97 | a name is a script exactly when it ends in `.jsx` or in `.js` |
| FixUrls.Considered | fix-urls.js:89-101 | the walk hands only `.js`/`.jsx` files to `replaceInFile` |
| FixUrls.ProcessFolder | fix-urls.js:83-108 | an unlistable folder counts 0; otherwise the count is the number of considered files that were fixed, at most the number considered |
| FixUrls.ProcessEntries | fix-urls.js:86-102 | the loop over a listing counts exactly the considered files that `replaceInFile` fixed, at most the number considered |
| FixUrls.ExcludedDirIgnored | fix-urls.js:92-96 | `node_modules` and `dist` contribute no file and no count, whatever they hold |
| FixUrls.AfterWrite | fix-urls.js:70-73 | after the walk, a script file that was fixed keeps its name and write flag and now holds exactly the text `writeFileSync` was given, which has no URL; every other file and every skipped directory is unchanged, and a visited directory keeps its number of entries, each rewritten by the same walk |
| FixUrls.SecondRunFixesNothing | fix-urls.js:83-108 | running the script again over the rewritten tree fixes no file |

## Left out

- Real I/O: `fetch`, `window.confirm`, `alert`, navigation and the `fs` calls are outcomes passed in or values returned. `console` logging is not modelled.
- BookList.FetchBooks: models the state once both requests have settled. `fetchLocalData` is not awaited, so `finally` clears `loading` before the snapshot arrives; that event-loop ordering is not modelled.
- The markup of every component except the branches and fields listed above. This includes images, placeholders, CSS classes and the admin edit and add buttons.
- The loads of books, carts and users on mount: they only store what the backend returns. The users view starts its GET in the component body, so one request fires on every render and only the first result is stored; those repeated requests are not modelled.
- The text of the cart's confirm question: it only names the row's `carttitle`, and the answer is an input.
- The initial `{}` state of the detail view before its book arrives.
- The routing table and static pages (`App.jsx`, `Home.jsx`, `About.jsx`, `Navbar.jsx`, the portal shells, `Loginpage.jsx`): they are static markup.
- `Addbook.jsx` and `Adduser.jsx`: form-to-POST wrappers whose behaviour depends on DOM refs.
- `json-backend/server.js` and `vite.config.js`: server and build configuration.
- The driver at the bottom of `fix-urls.js`: `existsSync` on `src`, the summary messages and the next-step hints. `FixUrls.ProcessFolder` is the call it makes.
- The rewrites of patterns 2 and 3 in `fix-urls.js`: they are proved never to match after pass 1, so their replacement text is never used.
- FixUrls.ProcessEntries: each file entry is taken to be a distinct file, read before any write of the walk. Symbolic links (which `isDirectory()` reports as files) and hard links are not modelled. With two entries for one file the script rewrites it on the first visit and skips it on the second, where the model counts and rewrites both.
- FixUrls.ReplaceInFile: only a failed read or a failed write can make `replaceInFile` throw in this model. Other exceptions are not modelled.
