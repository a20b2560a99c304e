# Task-list browser client: a Dafny model

This project models the logical core of the browser script of a task-list web
application (`public/javascripts/main.js`). The script keeps a local copy of the
server's tasks (`currentTasks`), a flag that stops two list reloads from
overlapping (`isLoading`), and talks to a REST API under `/api/tasks`. The
model covers:

- `escapeHtml`, the guard that stops task text from being read as markup;
- `getCsrfToken`, which finds the `PLAY_CSRF_TOKEN` cookie in the cookie string;
- the cache logic of `loadTasksWithNotification`, `addTaskAjax`,
  `updateTaskAjax` and `deleteTaskAjax`;
- `renderTasks`, abstracted to a sequence of rows.

Each AJAX operation is split in two pure functions. A *Submit* step checks the
guard (in-flight flag, blank text, confirmation) and decides which request to
send. A *Receive* step is the success/error callback applied to the server's
reply. Replies, the user's confirmation, the typed text and the decoded cookie
string are parameters. Every request carries the token `CsrfToken` computes
from the cookie, as the `X-CSRF-Token` header does.

Modules: `Text` (JavaScript `trim` and `split`), `HtmlEscape`, `Csrf`,
`TaskCache` (the three list edits), `TaskClient` (state transitions) and
`Render`.

Three details of the code worth noting:

- A successful update replaces the whole cached entry with the task the server
  returns. It does not patch only the description.
- The anti-forgery header is read from the cookie named `PLAY_CSRF_TOKEN`.
- The load callbacks call `showNotification`, but inside
  `loadTasksWithNotification` that name is the boolean parameter, so those
  calls throw. The model holds both the callbacks as written
  (`FinishLoadAsWritten`) and as evidently intended (`FinishLoad`); see
  "## Findings".

## Model

| member | source | states |
|---|---|---|
| Text.Trim | play-framework-task-list/play-scala-seed/public/javascripts/main.js:92-98 | `trim()` cuts a whitespace prefix and suffix. The result is empty exactly when the input is blank, and otherwise starts and ends with a non-whitespace character. |
| Text.Split | play-framework-task-list/play-scala-seed/public/javascripts/main.js:13 | `split(';')` gives at least one piece, no piece holds the separator, and joining the pieces with `;` gives the input back. |
| Text.SplitJoin | play-framework-task-list/play-scala-seed/public/javascripts/main.js:13 | Splitting a join of separator-free pieces returns exactly those pieces. |
| HtmlEscape.EscapeHtml | play-framework-task-list/play-scala-seed/public/javascripts/main.js:403-412 | The output never holds `<`, `>`, `"` or `'`. It is never shorter than the input. It equals the input exactly when the input has none of the five escaped characters. |
| HtmlEscape.EscapeAppend | play-framework-task-list/play-scala-seed/public/javascripts/main.js:411 | The global replace works character by character, so escaping distributes over concatenation. |
| HtmlEscape.EscapeRoundTrip | play-framework-task-list/play-scala-seed/public/javascripts/main.js:403-412 | Decoding the five references recovers the original text, so escaped text shows as the literal text. |
| HtmlEscape.EscapeInjective | play-framework-task-list/play-scala-seed/public/javascripts/main.js:403-412 | Two texts with the same escaping are equal. |
| Csrf.StripLeadingSpaces | play-framework-task-list/play-scala-seed/public/javascripts/main.js:16-18 | The loop removes only leading U+0020 characters. The result is a suffix of the piece that does not start with a space. |
| Csrf.TokenIn | play-framework-task-list/play-scala-seed/public/javascripts/main.js:14-23 | Gives the value after the name in the first matching piece, or `""` when no piece matches. |
| Csrf.CsrfToken | play-framework-task-list/play-scala-seed/public/javascripts/main.js:10-24 | For the decoded cookie string, gives the first matching `;`-piece's value or `""`. The token never holds a `;`. |
| Csrf.GetCsrfToken | play-framework-task-list/play-scala-seed/public/javascripts/main.js:10-24 | The loop as written (split, strip spaces one at a time, test the prefix, return early) computes `CsrfToken`. |
| Csrf.JoinedToken | play-framework-task-list/play-scala-seed/public/javascripts/main.js:13-21 | A cookie string joined from separator-free pieces yields the value of its first matching piece. |
| Csrf.CookieRoundTrip | play-framework-task-list/play-scala-seed/public/javascripts/main.js:11-23 | Writing other cookies, then `PLAY_CSRF_TOKEN=v` after any number of spaces, then more cookies, reads back exactly `v`. |
| TaskCache.FindIndex | play-framework-task-list/play-scala-seed/public/javascripts/main.js:160 | `findIndex` gives -1 exactly when no task has the id, and otherwise the first index whose task has it. |
| TaskCache.Prepend | play-framework-task-list/play-scala-seed/public/javascripts/main.js:113 | `unshift` grows the list by one, with the new task first and the old list as the tail. |
| TaskCache.ReplaceFirst | play-framework-task-list/play-scala-seed/public/javascripts/main.js:160-164 | Keeps the length. Only the first index with the id gets the new task, and all other indices keep theirs. With no match the list is unchanged. |
| TaskCache.RemoveId | play-framework-task-list/play-scala-seed/public/javascripts/main.js:194 | No survivor has the id. A task survives exactly when it was cached with another id. |
| TaskCache.RemoveIdAppend | play-framework-task-list/play-scala-seed/public/javascripts/main.js:194 | The filter distributes over concatenation, so survivors keep their relative order. |
| TaskCache.RemoveAbsentId | play-framework-task-list/play-scala-seed/public/javascripts/main.js:194 | Filtering a list that lacks the id leaves it unchanged. |
| TaskCache.RemoveUniqueId | play-framework-task-list/play-scala-seed/public/javascripts/main.js:194 | With unique ids, the filter removes exactly the one matching entry: the result is the list minus that index. |
| TaskCache.RemoveIdIdempotent | play-framework-task-list/play-scala-seed/public/javascripts/main.js:194 | Filtering twice is filtering once. |
| TaskCache.RemoveIdKeepsUniqueIds | play-framework-task-list/play-scala-seed/public/javascripts/main.js:194 | The filter keeps ids unique. |
| TaskCache.DropKeepsUniqueIds | play-framework-task-list/play-scala-seed/public/javascripts/main.js:194 | Removing one entry from a list with unique ids leaves the ids unique, which is what the filter does with a cached id. |
| TaskCache.PrependKeepsUniqueIds | play-framework-task-list/play-scala-seed/public/javascripts/main.js:113 | Prepending a task with an id that is not cached keeps ids unique. |
| TaskCache.ReplaceFirstKeepsUniqueIds | play-framework-task-list/play-scala-seed/public/javascripts/main.js:160-162 | Replacing an entry by a task with the same id keeps ids unique. |
| TaskClient.MakeRequest | play-framework-task-list/play-scala-seed/public/javascripts/main.js:65-67 | Every request carries `CsrfToken` of the decoded cookie as its `X-CSRF-Token` value, which holds no `;`. |
| TaskClient.StartLoad | play-framework-task-list/play-scala-seed/public/javascripts/main.js:55-67 | While a load is in flight the call is a no-op. Otherwise the flag goes up and one GET carrying the cookie's token is sent. The cache is untouched. |
| TaskClient.FinishLoad | play-framework-task-list/play-scala-seed/public/javascripts/main.js:68-86 | The callbacks as evidently intended (the parameter named apart from the banner function). On success the cache becomes the server's list. On a refusal or a transport failure it stays. The flag is lowered in every case. A banner appears exactly on failure or when asked for, and it is an error banner exactly on failure. |
| TaskClient.FinishLoadAsWritten | play-framework-task-list/play-scala-seed/public/javascripts/main.js:55-86 | The callbacks as written: no banner ever appears. On success the cache becomes the server's list. The flag is lowered only on a success with no banner asked for, and stays as it was otherwise. |
| TaskClient.FinishLoadAsWrittenDiffers | play-framework-task-list/play-scala-seed/public/javascripts/main.js:55-86 | During a load, the written callbacks agree with the intended ones exactly on a success with no banner asked for. |
| TaskClient.LoadRefusalExample | play-framework-task-list/play-scala-seed/public/javascripts/main.js:51-84 | A silent refresh that is refused leaves the state untouched and shows nothing, where the intended callbacks show the error and lower the flag. |
| TaskClient.Apply | play-framework-task-list/play-scala-seed/public/javascripts/main.js:55-205 | Only starting a load touches the flag. A GET is sent exactly when a load starts from an idle client. |
| TaskClient.StuckLoadStaysStuck | play-framework-task-list/play-scala-seed/public/javascripts/main.js:56-58 | Once the flag is up with no load reply to come, it stays up through any run of events and no load is sent again. |
| TaskClient.FailedLoadWedges | play-framework-task-list/play-scala-seed/public/javascripts/main.js:55-86 | With the written callbacks, a load that is refused, fails, or asks for a banner leaves the flag up. After that no event sends a load, and every later load is a no-op. |
| TaskClient.LoadIsGuarded | play-framework-task-list/play-scala-seed/public/javascripts/main.js:56-58 | A second load started while one is in flight sends nothing. |
| TaskClient.LoadCycle | play-framework-task-list/play-scala-seed/public/javascripts/main.js:55-88 | With the intended callbacks, a load from an idle client sends exactly one GET with the cookie's token. The flag is up while it is in flight and down after. The cache ends as the server's list on success and as before otherwise. |
| TaskClient.SubmitAdd | play-framework-task-list/play-scala-seed/public/javascripts/main.js:91-109 | Blank text sends nothing and shows the warning. Otherwise the trimmed, non-empty text is posted with the cookie's token. The cache is untouched either way. |
| TaskClient.ReceiveAdd | play-framework-task-list/play-scala-seed/public/javascripts/main.js:110-133 | On success the returned task is first and the old cache is the tail. A refusal or a transport failure leaves the state unchanged and shows an error banner. |
| TaskClient.SubmitUpdate | play-framework-task-list/play-scala-seed/public/javascripts/main.js:138-156 | Blank text sends nothing and shows the warning. Otherwise the trimmed text is put to that task's URL with the cookie's token. |
| TaskClient.ReceiveUpdate | play-framework-task-list/play-scala-seed/public/javascripts/main.js:157-174 | The length is kept. On success the first entry with the id becomes the returned task, every other entry stays, and nothing changes if no entry has the id; a success banner shows even without a match. Failures leave the state unchanged. |
| TaskClient.SubmitDelete | play-framework-task-list/play-scala-seed/public/javascripts/main.js:179-190 | A request is sent exactly when the user confirms, and it carries the cookie's token. Declining changes nothing and shows nothing. |
| TaskClient.ReceiveDelete | play-framework-task-list/play-scala-seed/public/javascripts/main.js:191-205 | On success a task stays cached exactly when it was cached with another id. Failures leave the state unchanged and show an error banner. |
| TaskClient.DeleteKeepsOrder | play-framework-task-list/play-scala-seed/public/javascripts/main.js:194 | A successful delete from a cache made of two parts deletes from each part, so the surviving tasks keep their cached order. |
| TaskClient.RepliesKeepUniqueIds | play-framework-task-list/play-scala-seed/public/javascripts/main.js:111-195 | Add, update and delete replies keep ids unique, given a fresh id on create and an unchanged id on update. |
| TaskClient.DeleteRemovesExactlyOne | play-framework-task-list/play-scala-seed/public/javascripts/main.js:192-195 | With unique ids, a successful delete removes exactly the deleted task and keeps the rest in order. |
| TaskClient.UpdateExample | play-framework-task-list/play-scala-seed/public/javascripts/main.js:158-164 | Updating `[{1,"A"}]` with the reply `{1,"B"}` yields `[{1,"B"}]`. |
| Render.RowsOf | play-framework-task-list/play-scala-seed/public/javascripts/main.js:229-259 | The `forEach` yields one row per task, in order. |
| Render.RenderTasks | play-framework-task-list/play-scala-seed/public/javascripts/main.js:215-262 | The placeholder appears exactly for an empty list. Otherwise row `i` carries task `i`'s id and its escaped description, both as shown text and as the edit box value. |
| Render.RenderedTextIsInert | play-framework-task-list/play-scala-seed/public/javascripts/main.js:235-248 | Neither copy of a rendered description (shown text or edit box value) holds a markup character, and each reads back as the task's own text. |
| Render.RenderAfterPrepend | play-framework-task-list/play-scala-seed/public/javascripts/main.js:113-114 | After a successful add, the new task's row comes first and the old rows follow unchanged. |

## Left out

- jQuery, the DOM and `$.ajax`: replies are parameters. A callback is one atomic step, and races between overlapping add, update and delete calls are not modelled.
- `document.cookie` and `decodeURIComponent`: the decoded cookie string is a parameter. The `URIError` that `decodeURIComponent` throws on malformed escapes is not modelled.
- Strings are sequences of Unicode scalar values. JavaScript strings are UTF-16, so lone surrogates cannot be represented.
- The input text is a string. `!description` also rejects `undefined` and `null`, and the DOM never hands those to the handlers here. For strings it rejects only `""`, which the blank check already covers.
- JSON parsing of replies is not modelled: replies are typed. A reply message that is missing would print as `undefined`, and that is not modelled either.
- The HTML text of the rows and of the placeholder is not modelled. A row keeps only what varies with its task. The id is interpolated without escaping, which is harmless because it is a number.
- Re-rendering is not stored in the state. Nothing renders the list at start-up: the page-load hook only starts a load, and `currentTasks` starts as `[]` while the list shows whatever the page was served with. The first render comes from a successful load, add, matching update or delete reply. From then on the view is `RenderTasks` of the cache; an update with no matching id skips the re-render, and the cache is unchanged then anyway.
- Notification timers and close buttons, the loading spinner, the add animation, clearing the input after an add, and console logging are timing or display effects.
- `startEditTask`, `saveTaskEdit`, `cancelTaskEdit`, the legacy `toggleEdit` and `cancelEdit`, the view toggle, the admin modals, `deleteUser`, the responsive layout and the page-load hook are DOM-only. They toggle visibility or styles, copy or reset input values and `data-original-value` attributes, and `deleteUser` submits a server-rendered form after a `confirm`. None of them touches `currentTasks` or `isLoading`. `saveTaskEdit` reads the edit input and forwards it to `updateTaskAjax`, which is modelled.
- The `TypeError` the written load callbacks throw reaches the browser console; the model records only its effects (no banner, flag left up). The spinner is likewise left showing, a display effect.
- Notification messages and admin user details are inserted without escaping. That is DOM behaviour; the model claims nothing about those paths.

## Findings

| source | as written | input that shows it | evidently intended | confidence | as-written member | corrected member |
|---|---|---|---|---|---|---|
| play-framework-task-list/play-scala-seed/public/javascripts/main.js:55-86 | The parameter `showNotification` hides the banner function, so the calls at lines 73, 76 and 81 call a boolean and throw. jQuery then skips `complete`, so `isLoading` stays true. | The page-load `loadTasks()` (line 51) answered with `success: false` or a transport error: no banner appears, and every later load returns at line 56. | The error banner appears and `complete` lowers the flag, as for the other operations. | not executed | TaskClient.FinishLoadAsWritten, TaskClient.FailedLoadWedges | TaskClient.FinishLoad, TaskClient.LoadCycle |
