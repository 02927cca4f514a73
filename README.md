# Render controller of the educational animation generator

A Dafny model of the backend's `render` controller
(`backend/src/controllers/render.controller.js`), the one piece of the
repository that computes anything. A call of `render(description)`:

1. builds a prompt: fixed instructions with the description spliced in;
2. sends it to the language model and takes the reply text, which is `""`
   when the reply has no text;
3. strips the reply with `output.split('\n').slice(1, -1).join('\n')`. This
   drops the first and last line blindly. It does not look for code fences
   and it does not trim;
4. names the scene `MyBeautifulScene_<uuid>`, with the uuid copied verbatim,
   hyphens included;
5. writes the stripped code to `src/codes/code_<scene>.py`;
6. launches `. ./src/venv/bin/activate && manim -qm <path> <scene> -o <scene>`
   without waiting for it;
7. returns `{ status: "success", videoLink }` with
   `videoLink = <SERVER_URL>/media/videos/code_<scene>/720p30/<scene>.mp4`.

In the model, the language-model reply, the uuid and the server URL are
parameters. `Render(description, reply, token, serverUrl)` is a function
defined for every non-empty description that returns everything the call produces: the prompt, the script
path and content, the command line, the renderer's arguments and the result.

Files:

- `js_strings.dfy` (module `JsStrings`): the JavaScript built-ins the
  controller calls on line 46, with JavaScript's semantics. `split` keeps
  empty pieces (`"".split('\n')` is `[""]`). `slice` takes relative indices
  (`slice(1, -1)` of fewer than three pieces is empty). `join` of `[]` is
  `""`. The module proves that `split` and `join` are inverses. It also
  defines `indexOf` and `lastIndexOf`, which return -1 when the character is
  absent. The controller does not call these two. They exist only to define
  `BetweenFirstAndLastNewline`, the second description of the stripping.
- `render_controller.dfy` (module `RenderController`): the prompt, the
  stripping, the scene naming, the path, argument, command and link
  derivation, and `Render`, together with their properties.
  `PromptDescription`, `SceneToken`, `ParseVideoLink` and `ResolveScriptPath`
  are the model's own reference inverses; nothing in the application
  performs them. They read the description back out of a prompt and the
  token back out of a scene name or a link, which shows that every artefact
  of a call is determined by its inputs and the one scene name.

The stripping is specified twice, and the two are proved to agree:

- by lines: `StripCodeLines`;
- by position: the text strictly between the first and the last newline,
  `BetweenFirstAndLastNewline` and `StripCodeIsBetweenNewlines`.

What the controller does not do:
- it does not look for code fences, and stripping is not idempotent
  (`StripCodeNotIdempotent`);
- it has no planning step before the code is generated;
- it has no repair loop: the renderer's failure is only logged;
- it has no error result: every call returns status "success";
- it does not replace the token's hyphens, so the scene name of a uuid token
  is not a Python class name (`UuidSceneNameKeepsHyphens`).

## Model

| member | source | states |
|---|---|---|
| `JsStrings.Split` | backend/src/controllers/render.controller.js:46 | `split('\n')` gives one more piece than there are separators, and no piece contains the separator |
| `JsStrings.SliceDropsEnds` | backend/src/controllers/render.controller.js:46 | `slice(1, -1)` is empty on at most two pieces and otherwise is every piece but the first and the last |
| `JsStrings.JoinSplit` | backend/src/controllers/render.controller.js:46 | re-joining the pieces of a split with the same separator gives the original string back |
| `JsStrings.SplitJoin` | backend/src/controllers/render.controller.js:46 | splitting the join of at least one separator-free piece gives exactly those pieces back |
| `JsStrings.Join` | backend/src/controllers/render.controller.js:46 | joining n >= 1 parts gives at least n - 1 characters (one per separator); what the join means is proved in `JoinCount`, `JoinSplit` and `SplitJoin` |
| `JsStrings.JoinCount` | backend/src/controllers/render.controller.js:46 | separator-free parts are joined with exactly one separator fewer than there are parts, and no parts with none |
| `JsStrings.Slice` | backend/src/controllers/render.controller.js:46 | `slice(start, end)` resolves both relative indices as JavaScript does and gives the elements between them: a window of the array as long as the resolved range, or nothing |
| `RenderController.Prompt` | backend/src/controllers/render.controller.js:36-41 | the prompt is the fixed instruction text, then the description verbatim, then the fixed tail |
| `RenderController.PromptDescription` | backend/src/controllers/render.controller.js:36-41 | a text yields a description exactly when it has the fixed head and tail, and that description rebuilds the text |
| `RenderController.PromptRoundTrip` | backend/src/controllers/render.controller.js:36-41 | the description is read back from its prompt, so distinct descriptions give distinct prompts |
| `RenderController.StripCode` | backend/src/controllers/render.controller.js:46 | the reply's first and last line are dropped: the result has two newlines fewer than the reply, or none when the reply has fewer than two |
| `RenderController.StripCodeLines` | backend/src/controllers/render.controller.js:46 | a reply of at most two lines strips to ""; a reply of n >= 3 lines strips to text whose lines are exactly lines 1..n-2 of the reply |
| `RenderController.StripCodeShortReply` | backend/src/controllers/render.controller.js:46 | a reply with at most one newline strips to "", including the empty reply that the generator returns when there is no text (line 28) |
| `RenderController.StripCodeIsBetweenNewlines` | backend/src/controllers/render.controller.js:46 | the stripped code is exactly the text strictly between the reply's first and last newline, or "" when there are fewer than two newlines |
| `RenderController.StripCodeKeepsClosingFence` | backend/src/controllers/render.controller.js:46 | stripping is not fence-aware: a fenced reply ending in a newline keeps its closing fence, as in "```python\nx\n```\n" giving "x\n```" |
| `RenderController.StripCodeKeepsMiddleVerbatim` | backend/src/controllers/render.controller.js:46 | whatever the first and last line hold, the text between them comes back unchanged, with no trimming |
| `RenderController.StripCodeNotIdempotent` | backend/src/controllers/render.controller.js:46 | stripping a four-line reply keeps its two middle lines, and stripping that again gives "" |
| `RenderController.SceneName` | backend/src/controllers/render.controller.js:31-33 | the scene name is the literal tag `MyBeautifulScene_` followed by the token, with no character replaced |
| `RenderController.SceneToken` | backend/src/controllers/render.controller.js:31-33 | a name yields a token exactly when it starts with the tag, and the yielded token rebuilds that name |
| `RenderController.SceneNameRoundTrip` | backend/src/controllers/render.controller.js:31-33 | the token is recovered from its scene name, so distinct tokens give distinct scene names |
| `RenderController.UuidSceneNameKeepsHyphens` | backend/src/controllers/render.controller.js:31-33 | for a uuid v4 token, the name keeps the uuid's hyphen and so is not a Python identifier |
| `RenderController.UuidHasNoSeparators` | backend/src/controllers/render.controller.js:31-33 | a uuid v4 token has no space, newline or slash |
| `RenderController.FileName` | backend/src/controllers/render.controller.js:49 | the file name is `code_`, then the scene name, then `.py` |
| `RenderController.FilePath` | backend/src/controllers/render.controller.js:50 | the path is the file name inside `src/codes/` |
| `RenderController.ScriptPathSpelledOut` | backend/src/controllers/render.controller.js:48-50 | the script path is `src/codes/code_MyBeautifulScene_<token>.py` |
| `RenderController.ScriptPathHasNoSpace` | backend/src/controllers/render.controller.js:48-50 | a space-free token gives a space-free scene name and a space-free script path |
| `RenderController.RendererArgs` | backend/src/controllers/render.controller.js:59 | the arguments are `-qm`, the script path, the scene name, `-o`, and the scene name again as the output name |
| `RenderController.ShellCommand` | backend/src/controllers/render.controller.js:59 | the command line handed to `exec` is the virtualenv activation and `manim`, followed by the renderer arguments joined by single spaces |
| `RenderController.RendererArgsWords` | backend/src/controllers/render.controller.js:59 | with a space-free path and scene name, the words of the argument part are exactly `-qm`, the path, the scene, `-o`, the scene |
| `RenderController.VideoLink` | backend/src/controllers/render.controller.js:65 | the link is the server URL, the videos directory, `code_<scene>` as the video's directory, the quality directory, and the scene name again as the `.mp4` file |
| `RenderController.VideoLinkFollowsFileName` | backend/src/controllers/render.controller.js:65 | the link's directory segment is the script's file name without `.py`, and the file name does end in `.py` |
| `RenderController.ParseVideoLink` | backend/src/controllers/render.controller.js:65 | a token read back from a link rebuilds exactly that link |
| `RenderController.VideoLinkRoundTrip` | backend/src/controllers/render.controller.js:65 | every link built from a token parses back to that token |
| `RenderController.Render` | backend/src/controllers/render.controller.js:35-71 | for a non-empty description (the guard at backend/src/index.js:27): the status is always "success"; the content is the stripped reply; the path, both scene arguments and the link are built from one scene name; the command is the activation prefix plus the arguments |
| `RenderController.RenderPromptCarriesDescription` | backend/src/controllers/render.controller.js:36-43 | the prompt sent is the fixed head and tail around the description, which is read back from it verbatim |
| `RenderController.RenderWritesStrippedReply` | backend/src/controllers/render.controller.js:46-52 | the file written holds exactly the text between the reply's first and last newline |
| `RenderController.RenderCommandWords` | backend/src/controllers/render.controller.js:48-59 | for a space-free token, the renderer's words are the written path, then the scene name as both the scene and the output name |
| `RenderController.RenderLinkResolvesToScript` | backend/src/controllers/render.controller.js:48-65 | the returned link resolves back to the very script path the call wrote |
| `RenderController.RenderLinkFollowsScriptName` | backend/src/controllers/render.controller.js:48-65 | the link's directory is the written file's name minus `.py`, and its file is the scene argument plus `.mp4` |
| `RenderController.DistinctTokensDoNotCollide` | backend/src/controllers/render.controller.js:48-65 | calls with distinct tokens write distinct script paths and return distinct links |

## Left out

- `generateWithGemini` (render.controller.js:6-29) is an HTTP call to an external service, followed by an optional-chaining lookup in its JSON. Its text is the `reply` parameter, which may be `""`. Network errors and the API key are not modelled.
- `uuidv4` (render.controller.js:1, 32) is a random source. The token is a parameter. `IsUuidV4` describes the form of its output, but the uniqueness of tokens across calls cannot be stated here; `DistinctTokensDoNotCollide` assumes it.
- `process.env.SERVER_URL` (render.controller.js:65) is an environment lookup and is the `serverUrl` parameter. An unset variable, which JavaScript would render as `undefined`, is not modelled.
- `writeFile` (render.controller.js:52) is filesystem I/O. The model returns the path and content it would write. Write failures, encoding and overwriting are not modelled.
- `exec` (render.controller.js:59-63) launches a subprocess that is never awaited, and its callback only logs. The model returns the command line and its arguments. Shell quoting is not modelled beyond the proof that a space-free token splits into the intended words. Whether manim succeeds, and where it writes the video, is manim's own convention and is not part of this model.
- The `console.log` and `console.error` calls (render.controller.js:54-57, 61-62) are logging only.
- `backend/src/index.js` is Express setup, CORS, static serving and `listen`. Only its guard (line 27) appears, as `Render`'s requirement that the description is non-empty. Whether the returned link is actually served by the static middleware (line 9) is not part of this model.
- `frontend/src/App.jsx` is UI state with a timed simulation and a hard-coded sample video. It never calls the backend.
- JavaScript strings are sequences of UTF-16 code units, while a Dafny `string` is a sequence of Unicode scalar values. A lone surrogate in a reply cannot be represented here, and a character outside the Basic Multilingual Plane is one `char` where JavaScript has two code units, so lengths can differ. `'\n'` and `' '` are single code units that never occur inside a surrogate pair, so splitting and joining on them give the same pieces either way, and no contract depends on the difference.
