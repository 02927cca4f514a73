/**
 * The `render` controller of the animation backend
 * (backend/src/controllers/render.controller.js): it builds a prompt from the
 * user's description, strips the first and last line off the language
 * model's reply, names the scene after a fresh token, derives the script's
 * file name and path, the renderer's command line and the public video link
 * from that one scene name, and reports success.
 *
 * The language-model call, the uuid source, the environment lookup, the
 * file write and the subprocess are not modelled as actions: the model's
 * reply, the token and the server URL are parameters, and the write and the
 * command are part of the result.
 */
module RenderController {
  import opened JsStrings

  datatype Option<T> = None | Some(value: T)

  const Newline: char := '\n'

  // ---------------------------------------------------------------------
  // Prompt (render.controller.js:36-41)

  const PromptHead: string :=
    "\nYou are tasked with creating an educational manim python script for the given user prompt.\n"
    + "Only respond with the python code.\n\nUser Prompt: "
  const PromptTail: string := "\n    "

  /** The prompt sent to the language model: the fixed instructions, the description verbatim, the fixed tail. */
  function Prompt(description: string): (p: string)
    ensures |p| == |PromptHead| + |description| + |PromptTail|
    ensures p[..|PromptHead|] == PromptHead
    ensures p[|PromptHead|..|PromptHead| + |description|] == description
    ensures p[|PromptHead| + |description|..] == PromptTail
  {
    PromptHead + description + PromptTail
  }

  /** The description a prompt was built from, if it has the fixed head and tail. */
  function PromptDescription(p: string): (description: Option<string>)
    ensures description.Some? <==>
      && |p| >= |PromptHead| + |PromptTail|
      && p[..|PromptHead|] == PromptHead
      && p[|p| - |PromptTail|..] == PromptTail
    ensures description.Some? ==> Prompt(description.value) == p
  {
    if |p| >= |PromptHead| + |PromptTail| && p[..|PromptHead|] == PromptHead && p[|p| - |PromptTail|..] == PromptTail
    then
      var d := p[|PromptHead|..|p| - |PromptTail|];
      assert p == PromptHead + d + PromptTail;
      Some(d)
    else None
  }

  /** The description is read back from its prompt, so distinct descriptions give distinct prompts. */
  lemma PromptRoundTrip(description: string)
    ensures PromptDescription(Prompt(description)) == Some(description)
  {
    var p := Prompt(description);
    assert p[|p| - |PromptTail|..] == PromptTail;
    assert p[|PromptHead|..|p| - |PromptTail|] == description;
  }

  // ---------------------------------------------------------------------
  // Code stripping (render.controller.js:46)

  /**
   * `output.split('\n').slice(1, -1).join('\n')`: every line of the reply but
   * the first and the last. Two newlines of the reply go with them, and none
   * is left of a reply with fewer than two.
   */
  function StripCode(output: string): (code: string)
    ensures Count(code, Newline) == if Count(output, Newline) >= 2 then Count(output, Newline) - 2 else 0
  {
    var lines := Split(output, Newline);
    var kept := Slice(lines, 1, -1);
    SliceDropsEnds(lines);
    assert forall i :: 0 <= i < |kept| ==> kept[i] == lines[i + 1];
    JoinCount(kept, Newline);
    Join(kept, Newline)
  }

  /**
   * The reply's lines strictly between the first and the last are what is
   * kept: a reply of at most two lines gives "", and a reply of n >= 3 lines
   * gives text whose n - 2 lines are lines 1 .. n-2 of the reply.
   */
  lemma StripCodeLines(output: string)
    ensures var lines := Split(output, Newline);
      && (|lines| <= 2 ==> StripCode(output) == "")
      && (|lines| >= 3 ==> Split(StripCode(output), Newline) == lines[1..|lines| - 1])
  {
    var lines := Split(output, Newline);
    SliceDropsEnds(lines);
    if |lines| >= 3 {
      SplitJoin(lines[1..|lines| - 1], Newline);
    }
  }

  /** A reply with at most one newline, the generator's fallback "" among them, strips to "". */
  lemma StripCodeShortReply(output: string)
    requires Count(output, Newline) <= 1
    ensures StripCode(output) == ""
  {
    StripCodeLines(output);
  }

  /** The text strictly between the first and the last newline of `s`, or "" when there are not two. */
  function BetweenFirstAndLastNewline(s: string): string
  {
    var i := IndexOf(s, Newline);
    var j := LastIndexOf(s, Newline);
    if i < j then s[i + 1..j] else ""
  }

  /** With a single newline, flanked by newline-free text, there is nothing between first and last. */
  lemma BetweenOneNewline(a: string, b: string)
    requires Newline !in a && Newline !in b
    ensures BetweenFirstAndLastNewline(a + [Newline] + b) == ""
  {
    IndexOfAfter(a, Newline, b);
    LastIndexOfBefore(a, Newline, b);
  }

  /** Between a newline-free first line and a newline-free last line lies exactly the middle text. */
  lemma BetweenOuterNewlines(a: string, middle: string, b: string)
    requires Newline !in a && Newline !in b
    ensures BetweenFirstAndLastNewline(a + [Newline] + middle + [Newline] + b) == middle
  {
    var s := a + [Newline] + middle + [Newline] + b;
    assert IndexOf(s, Newline) == |a| by {
      assert s == a + [Newline] + (middle + [Newline] + b);
      IndexOfAfter(a, Newline, middle + [Newline] + b);
    }
    assert LastIndexOf(s, Newline) == |a| + 1 + |middle| by {
      LastIndexOfBefore(a + [Newline] + middle, Newline, b);
    }
    assert s[|a| + 1..|a| + 1 + |middle|] == middle;
  }

  /** A reply with fewer than two newlines strips to "" and has nothing between newlines. */
  lemma StripCodeIsBetweenNewlinesShort(output: string)
    requires |Split(output, Newline)| <= 2
    ensures StripCode(output) == "" == BetweenFirstAndLastNewline(output)
  {
    var lines := Split(output, Newline);
    StripCodeLines(output);
    if |lines| == 2 {
      assert output == lines[0] + [Newline] + lines[1] by {
        JoinSplit(output, Newline);
        assert lines[1..] == [lines[1]];
      }
      BetweenOneNewline(lines[0], lines[1]);
    } else {
      assert Newline !in output;
    }
  }

  /** Joining three or more newline-free lines puts exactly the joined middle lines between the outer newlines. */
  lemma BetweenJoinedLines(lines: seq<string>)
    requires |lines| >= 3
    requires forall i :: 0 <= i < |lines| ==> Newline !in lines[i]
    ensures BetweenFirstAndLastNewline(Join(lines, Newline)) == Join(lines[1..|lines| - 1], Newline)
  {
    var n := |lines|;
    JoinOuter(lines, Newline);
    assert Newline !in lines[0] && Newline !in lines[n - 1];
    BetweenOuterNewlines(lines[0], Join(lines[1..n - 1], Newline), lines[n - 1]);
  }

  /** A reply with two newlines or more strips to the joined middle lines, which is what lies between its outer newlines. */
  lemma StripCodeIsBetweenNewlinesLong(output: string)
    requires |Split(output, Newline)| >= 3
    ensures StripCode(output) == BetweenFirstAndLastNewline(output)
  {
    var lines := Split(output, Newline);
    assert Slice(lines, 1, -1) == lines[1..|lines| - 1];
    JoinSplit(output, Newline);
    BetweenJoinedLines(lines);
  }

  /** Stripping keeps exactly the text strictly between the reply's first and last newline. */
  lemma StripCodeIsBetweenNewlines(output: string)
    ensures StripCode(output) == BetweenFirstAndLastNewline(output)
  {
    if |Split(output, Newline)| <= 2 {
      StripCodeIsBetweenNewlinesShort(output);
    } else {
      StripCodeIsBetweenNewlinesLong(output);
    }
  }

  /**
   * Stripping does not look for code fences: for a fenced reply that ends in
   * a newline, the dropped last line is the empty piece after that newline,
   * so the closing fence stays in the code.
   */
  lemma StripCodeKeepsClosingFence(language: string, body: string)
    requires Newline !in language
    ensures StripCode("```" + language + "\n" + body + "\n```\n") == body + "\n```"
  {
    var first := "```" + language;
    assert "```" + language + "\n" + body + "\n```\n" == first + [Newline] + (body + "\n```") + [Newline] + "";
    BetweenOuterNewlines(first, body + "\n```", "");
    StripCodeIsBetweenNewlines(first + [Newline] + (body + "\n```") + [Newline] + "");
  }

  /**
   * Stripping does not trim and does not inspect the outer lines: whatever
   * the first and last line say, the text between them comes back verbatim,
   * leading and trailing blanks included.
   */
  lemma StripCodeKeepsMiddleVerbatim(first: string, middle: string, last: string)
    requires Newline !in first && Newline !in last
    ensures StripCode(first + "\n" + middle + "\n" + last) == middle
  {
    BetweenOuterNewlines(first, middle, last);
    StripCodeIsBetweenNewlines(first + [Newline] + middle + [Newline] + last);
  }

  /** Stripping is not idempotent: stripping a four-line reply twice leaves nothing. */
  lemma StripCodeNotIdempotent(l0: string, l1: string, l2: string, l3: string)
    requires Newline !in l0 && Newline !in l1 && Newline !in l2 && Newline !in l3
    ensures StripCode(l0 + "\n" + l1 + "\n" + l2 + "\n" + l3) == l1 + "\n" + l2
    ensures StripCode(StripCode(l0 + "\n" + l1 + "\n" + l2 + "\n" + l3)) == ""
  {
    assert l0 + "\n" + l1 + "\n" + l2 + "\n" + l3 == l0 + "\n" + (l1 + "\n" + l2) + "\n" + l3;
    StripCodeKeepsMiddleVerbatim(l0, l1 + "\n" + l2, l3);
    SplitAfterPiece(l1, Newline, l2);
    SplitNoSeparator(l2, Newline);
    StripCodeLines(l1 + "\n" + l2);
  }

  // ---------------------------------------------------------------------
  // Scene naming (render.controller.js:31-33)

  const ScenePrefix: string := "MyBeautifulScene_"

  /** `MyBeautifulScene_${token}`: the fixed tag followed by the token, no character replaced. */
  function SceneName(token: string): (name: string)
    ensures |name| == |ScenePrefix| + |token|
    ensures name[..|ScenePrefix|] == ScenePrefix
    ensures name[|ScenePrefix|..] == token
  {
    ScenePrefix + token
  }

  /** The token a scene name was built from, if it carries the tag. */
  function SceneToken(name: string): (token: Option<string>)
    ensures token.Some? <==> |name| >= |ScenePrefix| && name[..|ScenePrefix|] == ScenePrefix
    ensures token.Some? ==> SceneName(token.value) == name
  {
    if |name| >= |ScenePrefix| && name[..|ScenePrefix|] == ScenePrefix
    then
      assert name == ScenePrefix + name[|ScenePrefix|..];
      Some(name[|ScenePrefix|..])
    else None
  }

  /** The token is recovered from the scene name; hence distinct tokens give distinct scene names. */
  lemma SceneNameRoundTrip(token: string)
    ensures SceneToken(SceneName(token)) == Some(token)
  {
  }

  /** A lower-case hexadecimal digit, as uuid v4 prints them. */
  predicate IsLowerHex(c: char)
  {
    '0' <= c <= '9' || 'a' <= c <= 'f'
  }

  /** The canonical text form of a random (version 4) UUID: 8-4-4-4-12 lower-case hex digits. */
  predicate IsUuidV4(t: string)
  {
    && |t| == 36
    && (forall i :: 0 <= i < 36 ==>
          if i == 8 || i == 13 || i == 18 || i == 23 then t[i] == '-' else IsLowerHex(t[i]))
    && t[14] == '4'
    && t[19] in "89ab"
  }

  /** An ASCII Python identifier: a letter or underscore, then letters, digits or underscores. */
  predicate IsPythonIdentifier(s: string)
  {
    && |s| > 0
    && ('a' <= s[0] <= 'z' || 'A' <= s[0] <= 'Z' || s[0] == '_')
    && forall i :: 0 <= i < |s| ==>
         'a' <= s[i] <= 'z' || 'A' <= s[i] <= 'Z' || '0' <= s[i] <= '9' || s[i] == '_'
  }

  /**
   * The hyphens of a uuid token stay in the scene name, so the name the
   * renderer is asked for can never be the name of a Python class.
   */
  lemma UuidSceneNameKeepsHyphens(token: string)
    requires IsUuidV4(token)
    ensures SceneName(token)[|ScenePrefix| + 8] == '-'
    ensures !IsPythonIdentifier(SceneName(token))
  {
    var name := SceneName(token);
    assert name[|ScenePrefix| + 8] == token[8];
  }

  /** A uuid token has no space, newline or slash, so it splits neither a command word, a line nor a path. */
  lemma UuidHasNoSeparators(token: string)
    requires IsUuidV4(token)
    ensures ' ' !in token && '\n' !in token && '/' !in token
  {
    forall i | 0 <= i < |token|
      ensures token[i] != ' ' && token[i] != '\n' && token[i] != '/'
    {
      if !(i == 8 || i == 13 || i == 18 || i == 23) {
        assert IsLowerHex(token[i]);
      }
    }
  }

  // ---------------------------------------------------------------------
  // Script file (render.controller.js:49-50)

  const ScriptPrefix: string := "code_"
  const ScriptExtension: string := ".py"
  const ScriptsDir: string := "src/codes/"

  /** `code_${sceneName}.py`: the scene name between the script prefix and the `.py` extension. */
  function FileName(sceneName: string): (f: string)
    ensures |f| == |ScriptPrefix| + |sceneName| + |ScriptExtension|
    ensures f[..|ScriptPrefix|] == ScriptPrefix
    ensures f[|ScriptPrefix|..|f| - |ScriptExtension|] == sceneName
    ensures f[|f| - |ScriptExtension|..] == ScriptExtension
  {
    ScriptPrefix + sceneName + ScriptExtension
  }

  /** `src/codes/${filename}`: the file name inside the scripts directory. */
  function FilePath(fileName: string): (path: string)
    ensures |path| == |ScriptsDir| + |fileName|
    ensures path[..|ScriptsDir|] == ScriptsDir
    ensures path[|ScriptsDir|..] == fileName
  {
    ScriptsDir + fileName
  }

  /** The script path spelled out: `src/codes/code_MyBeautifulScene_<token>.py`. */
  lemma ScriptPathSpelledOut(token: string)
    ensures FilePath(FileName(SceneName(token))) == "src/codes/code_" + ScenePrefix + token + ".py"
  {
  }

  /** The fixed parts of the script path hold no space, so a space-free token gives a space-free path. */
  lemma ScriptPathHasNoSpace(token: string)
    requires ' ' !in token
    ensures ' ' !in SceneName(token) && ' ' !in FilePath(FileName(SceneName(token)))
  {
    var name := SceneName(token);
    assert ' ' !in ScenePrefix;
    assert name == ScenePrefix + token;
    assert ' ' !in "src/codes/" && ' ' !in "code_" && ' ' !in ".py";
    assert FilePath(FileName(name)) == "src/codes/" + "code_" + name + ".py";
  }

  // ---------------------------------------------------------------------
  // Renderer invocation (render.controller.js:59)

  /** What precedes the renderer's arguments on the command line: the virtualenv activation and the program name. */
  const ActivatePrefix: string := ". ./src/venv/bin/activate && manim "

  /**
   * The arguments given to `manim`: medium quality, the script, the scene,
   * and the output name, which is the scene name again.
   */
  function RendererArgs(filePath: string, sceneName: string): (args: seq<string>)
    ensures |args| == 5 && args[0] == "-qm"
    ensures args[1] == filePath && args[2] == sceneName
    ensures args[3] == "-o" && args[4] == args[2]
  {
    ["-qm", filePath, sceneName, "-o", sceneName]
  }

  /**
   * The shell command line handed to `exec`: the activation prefix followed
   * by the renderer's arguments separated by single spaces.
   */
  function ShellCommand(filePath: string, sceneName: string): (command: string)
    ensures command == ActivatePrefix + Join(RendererArgs(filePath, sceneName), ' ')
  {
    CommandTemplate(filePath, sceneName);
    ". ./src/venv/bin/activate && manim -qm " + filePath + " " + sceneName + " -o " + sceneName
  }

  /** The template of the command line regrouped as the activation prefix and the joined arguments. */
  lemma CommandTemplate(filePath: string, sceneName: string)
    ensures ". ./src/venv/bin/activate && manim -qm " + filePath + " " + sceneName + " -o " + sceneName
            == ActivatePrefix + Join(RendererArgs(filePath, sceneName), ' ')
  {
    var args := RendererArgs(filePath, sceneName);
    var j3 := Join(args[3..], ' ');
    var j2 := Join(args[2..], ' ');
    var j1 := Join(args[1..], ' ');
    assert j3 == "-o" + [' '] + sceneName by {
      assert args[3..] == ["-o", sceneName];
      assert args[3..][1..] == [sceneName];
      assert Join([sceneName], ' ') == sceneName;
    }
    assert j2 == sceneName + [' '] + j3 by {
      assert args[2..][1..] == args[3..];
    }
    assert j1 == filePath + [' '] + j2 by {
      assert args[1..][1..] == args[2..];
    }
    assert Join(args, ' ') == "-qm" + [' '] + j1;
    assert ". ./src/venv/bin/activate && manim -qm " == ActivatePrefix + "-qm" + [' '];
    assert " -o " == [' '] + "-o" + [' '];
  }

  /**
   * When neither the path nor the scene name holds a space, the words of
   * the argument part are exactly the arguments: the renderer gets the
   * script path as written and the scene name twice.
   */
  lemma RendererArgsWords(filePath: string, sceneName: string)
    requires ' ' !in filePath && ' ' !in sceneName
    ensures Split(Join(RendererArgs(filePath, sceneName), ' '), ' ') == RendererArgs(filePath, sceneName)
  {
    assert ' ' !in "-qm" && ' ' !in "-o";
    SplitJoin(RendererArgs(filePath, sceneName), ' ');
  }

  // ---------------------------------------------------------------------
  // Video link (render.controller.js:65)

  /** The videos directory, followed by the `code_` that begins the video's directory name. */
  const VideoDirPrefix: string := "/media/videos/" + ScriptPrefix
  const QualityDir: string := "/720p30/"
  const VideoExtension: string := ".mp4"

  /**
   * `${SERVER_URL}/media/videos/code_${sceneName}/720p30/${sceneName}.mp4`:
   * the scene name names both the video's directory and its file.
   */
  function VideoLink(serverUrl: string, sceneName: string): (link: string)
    ensures |link| == |serverUrl| + |VideoDirPrefix| + |sceneName| + |QualityDir| + |sceneName| + |VideoExtension|
    ensures link[..|serverUrl| + |VideoDirPrefix|] == serverUrl + VideoDirPrefix
    ensures var i := |serverUrl| + |VideoDirPrefix|;
      link[i..i + |sceneName|] == sceneName
    ensures var j := |link| - |VideoExtension| - |sceneName|;
      link[j - |QualityDir|..j] == QualityDir && link[j..j + |sceneName|] == sceneName
    ensures link[|link| - |VideoExtension|..] == VideoExtension
  {
    serverUrl + VideoDirPrefix + sceneName + QualityDir + sceneName + VideoExtension
  }

  /** The link's directory segment is the script's file name without its `.py`. */
  lemma VideoLinkFollowsFileName(serverUrl: string, sceneName: string)
    ensures var f := FileName(sceneName);
      && |f| >= 3 && f[|f| - 3..] == ".py"
      && VideoLink(serverUrl, sceneName)
         == serverUrl + "/media/videos/" + f[..|f| - 3] + "/720p30/" + sceneName + ".mp4"
  {
    var f := FileName(sceneName);
    assert f[..|f| - 3] == "code_" + sceneName;
  }

  /**
   * Reads the token back out of a video link served under `serverUrl`: the
   * scene name is the first half of what follows the videos directory, and
   * the link is accepted only if rebuilding it from that scene name gives it
   * back and the scene name carries the tag.
   */
  function ParseVideoLink(serverUrl: string, link: string): (token: Option<string>)
    ensures token.Some? ==> VideoLink(serverUrl, SceneName(token.value)) == link
  {
    var head := serverUrl + VideoDirPrefix;
    var fixed := |QualityDir| + |VideoExtension|;
    if |link| < |head| + fixed || link[..|head|] != head then None
    else
      var rest := link[|head|..];
      if (|rest| - fixed) % 2 != 0 then None
      else
        var sceneName := rest[..(|rest| - fixed) / 2];
        if VideoLink(serverUrl, sceneName) != link then None
        else SceneToken(sceneName)
  }

  /** Every link built from a token parses back to that token. */
  lemma VideoLinkRoundTrip(serverUrl: string, token: string)
    ensures ParseVideoLink(serverUrl, VideoLink(serverUrl, SceneName(token))) == Some(token)
  {
    var sceneName := SceneName(token);
    var head := serverUrl + VideoDirPrefix;
    var rest := sceneName + (QualityDir + (sceneName + VideoExtension));
    ConcatAssoc4(head, sceneName, QualityDir, sceneName, VideoExtension);
    assert VideoLink(serverUrl, sceneName) == head + rest;
    assert (head + rest)[|head|..] == rest;
    assert rest[..|sceneName|] == sceneName;
  }

  /**
   * The model's reference inverse from a link to the script behind it: the
   * path that the call which returned `link` wrote. Nothing in the served
   * application performs this lookup.
   */
  function ResolveScriptPath(serverUrl: string, link: string): Option<string>
  {
    match ParseVideoLink(serverUrl, link)
    case Some(t) => Some(FilePath(FileName(SceneName(t))))
    case None => None
  }

  // ---------------------------------------------------------------------
  // The controller (render.controller.js:35-71)

  /** What `render` resolves with: `{ status, videoLink }`. */
  datatype RenderResult = RenderResult(status: string, videoLink: string)

  /**
   * Everything one call of `render` produces: the prompt it sends, the
   * file it writes (path and content), the command it launches, the
   * renderer's arguments inside that command, and the result it returns.
   */
  datatype RenderEffects = RenderEffects(
    prompt: string,
    scriptPath: string,
    scriptContent: string,
    command: string,
    args: seq<string>,
    result: RenderResult)

  /**
   * One call of `render(description)` given the language model's reply, the
   * fresh uuid and the configured server URL. The request handler admits
   * only a non-empty description. The subprocess is not awaited, so the
   * status is "success" whatever the reply and whatever the renderer does.
   * The scene name is computed once and is the one in the script path, in
   * both scene arguments and in the link.
   */
  function Render(description: string, reply: string, token: string, serverUrl: string): (r: RenderEffects)
    requires |description| > 0
    ensures r.result.status == "success"
    ensures r.prompt == Prompt(description)
    ensures r.scriptContent == StripCode(reply)
    ensures r.scriptPath == FilePath(FileName(SceneName(token)))
    ensures r.args == RendererArgs(r.scriptPath, SceneName(token))
    ensures r.command == ActivatePrefix + Join(r.args, ' ')
    ensures r.result.videoLink == VideoLink(serverUrl, SceneName(token))
  {
    var prompt := Prompt(description);
    var code := StripCode(reply);
    var sceneName := SceneName(token);
    var filename := FileName(sceneName);
    var filepath := FilePath(filename);
    var command := ShellCommand(filepath, sceneName);
    var videoLink := VideoLink(serverUrl, sceneName);
    RenderEffects(prompt, filepath, code, command, RendererArgs(filepath, sceneName), RenderResult("success", videoLink))
  }

  /** The prompt a call sends is the fixed head and tail around the description, which it gives back verbatim. */
  lemma RenderPromptCarriesDescription(description: string, reply: string, token: string, serverUrl: string)
    requires |description| > 0
    ensures var r := Render(description, reply, token, serverUrl);
      && r.prompt[..|PromptHead|] == PromptHead
      && r.prompt[|r.prompt| - |PromptTail|..] == PromptTail
      && PromptDescription(r.prompt) == Some(description)
  {
    PromptRoundTrip(description);
  }

  /** The script written holds exactly the text between the reply's first and last newline. */
  lemma RenderWritesStrippedReply(description: string, reply: string, token: string, serverUrl: string)
    requires |description| > 0
    ensures Render(description, reply, token, serverUrl).scriptContent == BetweenFirstAndLastNewline(reply)
  {
    StripCodeIsBetweenNewlines(reply);
  }

  /**
   * For a token without spaces, the words after the activation prefix are
   * exactly the renderer's arguments: the written script's path, then the
   * one scene name as both the scene and the output name.
   */
  lemma RenderCommandWords(description: string, reply: string, token: string, serverUrl: string)
    requires |description| > 0
    requires ' ' !in token
    ensures var r := Render(description, reply, token, serverUrl);
      && r.command == ActivatePrefix + Join(r.args, ' ')
      && Split(Join(r.args, ' '), ' ') == ["-qm", r.scriptPath, ScenePrefix + token, "-o", ScenePrefix + token]
  {
    var path := FilePath(FileName(SceneName(token)));
    ScriptPathHasNoSpace(token);
    RendererArgsWords(path, SceneName(token));
  }

  /** The public link of a call resolves back to the very script path that call wrote. */
  lemma RenderLinkResolvesToScript(description: string, reply: string, token: string, serverUrl: string)
    requires |description| > 0
    ensures var r := Render(description, reply, token, serverUrl);
      ResolveScriptPath(serverUrl, r.result.videoLink) == Some(r.scriptPath)
  {
    VideoLinkRoundTrip(serverUrl, token);
  }

  /** The link's directory segment is the written script's file name without `.py`, and its file is the scene argument. */
  lemma RenderLinkFollowsScriptName(description: string, reply: string, token: string, serverUrl: string)
    requires |description| > 0
    ensures var r := Render(description, reply, token, serverUrl);
      var f := FileName(r.args[2]);
      && r.scriptPath == "src/codes/" + f
      && f[|f| - 3..] == ".py"
      && r.result.videoLink == serverUrl + "/media/videos/" + f[..|f| - 3] + "/720p30/" + r.args[2] + ".mp4"
  {
    VideoLinkFollowsFileName(serverUrl, SceneName(token));
  }

  /**
   * Two calls with distinct tokens write distinct script files and return
   * distinct links; the uniqueness of the tokens themselves rests on the
   * uuid source, which is not modelled.
   */
  lemma DistinctTokensDoNotCollide(
    d1: string, reply1: string, t1: string,
    d2: string, reply2: string, t2: string,
    serverUrl: string)
    requires |d1| > 0 && |d2| > 0
    requires t1 != t2
    ensures Render(d1, reply1, t1, serverUrl).scriptPath != Render(d2, reply2, t2, serverUrl).scriptPath
    ensures Render(d1, reply1, t1, serverUrl).result.videoLink != Render(d2, reply2, t2, serverUrl).result.videoLink
  {
    VideoLinkRoundTrip(serverUrl, t1);
    VideoLinkRoundTrip(serverUrl, t2);
    var n1, n2 := SceneName(t1), SceneName(t2);
    if FilePath(FileName(n1)) == FilePath(FileName(n2)) {
      CancelPrefix("src/codes/", FileName(n1), FileName(n2));
      CancelAround("code_", n1, n2, ".py");
      CancelPrefix(ScenePrefix, t1, t2);
    }
  }
}
