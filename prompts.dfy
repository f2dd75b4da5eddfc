/** The prompt service of the backend: prompt templates loaded from a YAML
  * file, looked up by name, and rendered into chat messages with
  * `string.Template.safe_substitute`. */
module Prompts {
  import opened Wrappers
  import opened Text

  // ---------------------------------------------------------------------------
  // string.Template.safe_substitute
  // ---------------------------------------------------------------------------

  /** The first character of a placeholder name: `[_a-z]` under ASCII
    * case-insensitive matching. */
  predicate IsIdStart(c: char) {
    c == '_' || ('a' <= c <= 'z') || ('A' <= c <= 'Z')
  }

  predicate IsIdChar(c: char) {
    IsIdStart(c) || ('0' <= c <= '9')
  }

  /** A whole placeholder name. */
  predicate IsIdentifier(name: string) {
    |name| > 0 && IsIdStart(name[0]) && forall i :: 0 <= i < |name| ==> IsIdChar(name[i])
  }

  /** The longest run of name characters at the start of `s`. */
  function IdentPrefix(s: string): (id: string)
    ensures |id| <= |s| && id == s[..|id|]
    ensures |id| < |s| ==> !IsIdChar(s[|id|])
    decreases |s|
  {
    if |s| > 0 && IsIdChar(s[0]) then [s[0]] + IdentPrefix(s[1..]) else ""
  }

  /** Every character of the run is a name character, so none is a `$`. */
  lemma {:induction false} IdentPrefixChars(s: string)
    ensures forall i :: 0 <= i < |IdentPrefix(s)| ==> IsIdChar(IdentPrefix(s)[i])
    ensures '$' !in IdentPrefix(s)
    decreases |s|
  {
    if |s| > 0 && IsIdChar(s[0]) {
      IdentPrefixChars(s[1..]);
      var id := IdentPrefix(s);
      assert id == [s[0]] + IdentPrefix(s[1..]);
      forall i | 0 < i < |id| ensures IsIdChar(id[i]) {
        assert id[i] == IdentPrefix(s[1..])[i - 1];
      }
    }
  }

  /** `Template(t).safe_substitute(vars)`. The template pattern is tried at
    * every `$`, left to right, and replacements are not rescanned:
    *   `$$`        becomes `$`;
    *   `$name`     (the longest name) becomes `vars[name]`, or stays as is;
    *   `${name}`   becomes `vars[name]`, or stays as is;
    *   any other `$` stays as is, and scanning goes on after it. */
  function Substitute(t: string, vars: map<string, string>): string
    decreases |t|
  {
    if |t| == 0 then ""
    else
      var m := MatchAt(t, vars);
      m.0 + Substitute(t[m.1..], vars)
  }

  /** What the text at the start of `t` becomes, and how many characters of
    * `t` that consumes. */
  function MatchAt(t: string, vars: map<string, string>): (m: (string, nat))
    requires |t| > 0
    ensures 0 < m.1 <= |t|
  {
    if t[0] != '$' then ([t[0]], 1)
    else if |t| >= 2 && t[1] == '$' then ("$", 2)
    else if |t| >= 2 && IsIdStart(t[1]) then
      var name := IdentPrefix(t[1..]);
      var n := 1 + |name|;
      (if name in vars then vars[name] else t[..n], n)
    else if |t| >= 3 && t[1] == '{' && IsIdStart(t[2])
            && 2 + |IdentPrefix(t[2..])| < |t| && t[2 + |IdentPrefix(t[2..])|] == '}' then
      var name := IdentPrefix(t[2..]);
      var n := 3 + |name|;
      (if name in vars then vars[name] else t[..n], n)
    else ("$", 1)
  }

  lemma {:induction false} NoDollarUnchanged(t: string, vars: map<string, string>)
    requires '$' !in t
    ensures Substitute(t, vars) == t
    decreases |t|
  {
    if |t| > 0 {
      NoDollarUnchanged(t[1..], vars);
    }
  }

  /** Text before the first `$` is copied unchanged. */
  lemma {:induction false} PlainPrefix(a: string, b: string, vars: map<string, string>)
    requires '$' !in a
    ensures Substitute(a + b, vars) == a + Substitute(b, vars)
    decreases |a|
  {
    if |a| > 0 {
      assert MatchAt(a + b, vars) == ([a[0]], 1);
      calc {
        Substitute(a + b, vars);
        [a[0]] + Substitute((a + b)[1..], vars);
        { assert (a + b)[1..] == a[1..] + b; }
        [a[0]] + Substitute(a[1..] + b, vars);
        { PlainPrefix(a[1..], b, vars); }
        [a[0]] + (a[1..] + Substitute(b, vars));
        { Assoc([a[0]], a[1..], Substitute(b, vars)); assert [a[0]] + a[1..] == a; }
        a + Substitute(b, vars);
      }
    } else {
      assert a + b == b;
    }
  }

  /** `$$` is an escaped `$`. */
  lemma Escaped(rest: string, vars: map<string, string>)
    ensures Substitute("$$" + rest, vars) == "$" + Substitute(rest, vars)
  {
    assert ("$$" + rest)[2..] == rest;
  }

  /** `$name` followed by a character that cannot extend the name. */
  lemma Named(name: string, rest: string, vars: map<string, string>)
    requires IsIdentifier(name)
    requires |rest| == 0 || !IsIdChar(rest[0])
    ensures Substitute("$" + name + rest, vars)
            == (if name in vars then vars[name] else "$" + name) + Substitute(rest, vars)
  {
    var t := "$" + name + rest;
    assert t[1..] == name + rest;
    IdentOfName(name, rest);
    assert t[..1 + |name|] == "$" + name;
    assert t[1 + |name|..] == rest;
  }

  /** `${name}`, whatever follows it. */
  lemma Braced(name: string, rest: string, vars: map<string, string>)
    requires IsIdentifier(name)
    ensures Substitute("${" + name + "}" + rest, vars)
            == (if name in vars then vars[name] else "${" + name + "}") + Substitute(rest, vars)
  {
    var t := "${" + name + "}" + rest;
    var n := 3 + |name|;
    assert t[2..] == name + ("}" + rest);
    IdentOfName(name, "}" + rest);
    assert t[2 + |name|] == '}';
    assert t[..n] == "${" + name + "}";
    assert MatchAt(t, vars) == (if name in vars then vars[name] else t[..n], n);
    assert t[n..] == rest;
  }

  /** A `$` that starts neither an escape, a name nor a brace is kept, and
    * scanning resumes right after it. */
  lemma Invalid(rest: string, vars: map<string, string>)
    requires |rest| == 0 || (rest[0] != '$' && !IsIdStart(rest[0]) && rest[0] != '{')
    ensures Substitute("$" + rest, vars) == "$" + Substitute(rest, vars)
  {
    assert ("$" + rest)[1..] == rest;
  }

  /** A `${` that does not open a complete `${name}` (no name, a name not
    * closed by `}`, or none at all) keeps its `$`, and scanning resumes at the
    * `{`. */
  lemma InvalidBrace(rest: string, vars: map<string, string>)
    requires |rest| > 0 && rest[0] == '{'
    requires !(|rest| >= 2 && IsIdStart(rest[1])
               && 1 + |IdentPrefix(rest[1..])| < |rest| && rest[1 + |IdentPrefix(rest[1..])|] == '}')
    ensures Substitute("$" + rest, vars) == "$" + Substitute(rest, vars)
  {
    var t := "$" + rest;
    assert t[1..] == rest;
    assert |t| >= 3 ==> t[2..] == rest[1..];
    assert MatchAt(t, vars) == ("$", 1);
  }

  lemma {:induction false} IdentOfName(name: string, rest: string)
    requires forall i :: 0 <= i < |name| ==> IsIdChar(name[i])
    requires |rest| == 0 || !IsIdChar(rest[0])
    ensures IdentPrefix(name + rest) == name
    decreases |name|
  {
    if |name| > 0 {
      assert (name + rest)[1..] == name[1..] + rest;
      IdentOfName(name[1..], rest);
    } else {
      assert name + rest == rest;
    }
  }

  /** Collapses every `$$` to `$`, left to right. */
  function Unescape(t: string): string
    decreases |t|
  {
    if |t| >= 2 && t[0] == '$' && t[1] == '$' then "$" + Unescape(t[2..])
    else if |t| > 0 then [t[0]] + Unescape(t[1..])
    else ""
  }

  lemma {:induction false} UnescapePlain(a: string, b: string)
    requires '$' !in a
    ensures Unescape(a + b) == a + Unescape(b)
    decreases |a|
  {
    if |a| > 0 {
      assert (a + b)[0] == a[0] && (a + b)[1..] == a[1..] + b;
      UnescapePlain(a[1..], b);
    } else {
      assert a + b == b;
    }
  }

  /** With no variables supplied, every placeholder is left as it is and only
    * the `$$` escapes change. */
  lemma {:induction false} NoVariables(t: string)
    ensures Substitute(t, map[]) == Unescape(t)
    decreases |t|
  {
    if |t| > 0 {
      if t[0] != '$' {
        NoVariables(t[1..]);
      } else if |t| >= 2 && t[1] == '$' {
        NoVariables(t[2..]);
      } else if |t| >= 2 && IsIdStart(t[1]) {
        NoVariablesNamed(t);
      } else if |t| >= 3 && t[1] == '{' && IsIdStart(t[2])
                && 2 + |IdentPrefix(t[2..])| < |t| && t[2 + |IdentPrefix(t[2..])|] == '}' {
        NoVariablesBraced(t);
      } else {
        NoVariables(t[1..]);
      }
    }
  }

  lemma {:induction false} NoVariablesNamed(t: string)
    requires |t| >= 2 && t[0] == '$' && IsIdStart(t[1])
    ensures Substitute(t, map[]) == Unescape(t)
    decreases |t|, 1
  {
    var name := IdentPrefix(t[1..]);
    var n := 1 + |name|;
    assert MatchAt(t, map[]) == (t[..n], n);
    IdentPrefixChars(t[1..]);
    DollarSplit(t, 1, n);
    assert t[..n][1..] == name;
    NoVariablesAt(t, n);
  }

  lemma {:induction false} NoVariablesBraced(t: string)
    requires |t| >= 3 && t[0] == '$' && t[1] == '{' && IsIdStart(t[2])
    requires 2 + |IdentPrefix(t[2..])| < |t| && t[2 + |IdentPrefix(t[2..])|] == '}'
    ensures Substitute(t, map[]) == Unescape(t)
    decreases |t|, 1
  {
    var name := IdentPrefix(t[2..]);
    var n := 3 + |name|;
    assert MatchAt(t, map[]) == (t[..n], n);
    IdentPrefixChars(t[2..]);
    DollarSplit(t, 2, n - 1);
    BracedHead(t[..n], name);
    NoVariablesAt(t, n);
  }

  /** A placeholder left as it is, with no `$` after its leading one, changes
    * nothing under either function. */
  lemma {:induction false} NoVariablesAt(t: string, n: nat)
    requires 2 <= n <= |t| && MatchAt(t, map[]) == (t[..n], n)
    requires t[0] == '$' && '$' !in t[..n][1..]
    ensures Substitute(t, map[]) == Unescape(t)
    decreases |t|, 0
  {
    var head, rest := t[..n], t[n..];
    NoVariables(rest);
    UnescapeDollar(head, rest);
    calc {
      Substitute(t, map[]);
      head + Substitute(rest, map[]);
      head + Unescape(rest);
      Unescape(head + rest);
      { assert head + rest == t; }
      Unescape(t);
    }
  }

  lemma BracedHead(head: string, name: string)
    requires |head| == 3 + |name| && head[1] == '{' && head[2..|head| - 1] == name && head[|head| - 1] == '}'
    requires '$' !in name
    ensures '$' !in head[1..]
  {
    forall i | 1 <= i < |head| ensures head[i] != '$' {
      if 2 <= i < |head| - 1 { assert head[i] == name[i - 2]; }
    }
  }

  /** The name `IdentPrefix` finds at `k` spans `t[k..m]`. */
  lemma DollarSplit(t: string, k: nat, m: nat)
    requires k <= |t| && m == k + |IdentPrefix(t[k..])|
    ensures m <= |t| && t[k..m] == IdentPrefix(t[k..])
  {
  }

  /** A `$` and at least one more character that is not a `$`: only `rest`
    * can hold escapes. */
  lemma UnescapeDollar(head: string, rest: string)
    requires |head| >= 2 && head[0] == '$' && '$' !in head[1..]
    ensures Unescape(head + rest) == head + Unescape(rest)
  {
    var t := head + rest;
    assert t[1] == head[1..][0];
    assert t[1..] == head[1..] + rest;
    UnescapePlain(head[1..], rest);
    assert head == [head[0]] + head[1..];
    Assoc([head[0]], head[1..], Unescape(rest));
  }

  // ---------------------------------------------------------------------------
  // Prompt and render_messages
  // ---------------------------------------------------------------------------

  /** A template as a message content: substituted, then stripped. */
  function Render(template: string, variables: map<string, string>): string {
    Strip(Substitute(template, variables))
  }

  /** The "role" value of a chat message: "system" or "user". */
  datatype Role = SystemRole | UserRole

  /** `{"role": ..., "content": ...}`. */
  datatype Message = Message(role: Role, content: string)

  /** The frozen `Prompt` record: a system and a user template. */
  datatype Prompt = Prompt(system: string, user: string)
  {
    /** `render_messages`: both templates substituted and stripped; the system
      * message only when its text is not empty, the user message always and
      * last. */
    method RenderMessages(variables: map<string, string>) returns (messages: seq<Message>)
      ensures 1 <= |messages| <= 2
      ensures messages[|messages| - 1] == Message(UserRole, Render(user, variables))
      ensures |messages| == 2 <==> |Render(system, variables)| > 0
      ensures |messages| == 2 ==> messages[0] == Message(SystemRole, Render(system, variables))
    {
      var systemText := Render(system, variables);
      var userText := Render(user, variables);
      messages := [];
      if |systemText| > 0 {
        messages := messages + [Message(SystemRole, systemText)];
      }
      assert messages == if |systemText| > 0 then [Message(SystemRole, systemText)] else [];
      messages := messages + [Message(UserRole, userText)];
    }
  }

  // ---------------------------------------------------------------------------
  // The loaded YAML document
  // ---------------------------------------------------------------------------

  /** What `yaml.safe_load` returns, with mapping keys taken as strings. */
  datatype Yaml =
    | YNull
    | YBool(b: bool)
    | YInt(i: int)
    | YFloat(f: real)
    | YStr(s: string)
    | YSeq(items: seq<Yaml>)
    | YMap(entries: map<string, Yaml>)

  /** Python truthiness of the loaded value: what `or {}` replaces. */
  predicate Falsy(y: Yaml) {
    match y
    case YNull => true
    case YBool(b) => !b
    case YInt(i) => i == 0
    case YFloat(f) => f == 0.0
    case YStr(s) => |s| == 0
    case YSeq(items) => |items| == 0
    case YMap(entries) => |entries| == 0
  }

  datatype LoadError =
    | YamlUnavailable          // ImportError: pyyaml could not be imported
    | PromptFileMissing(path: string)   // FileNotFoundError
    | UnreadableYaml(path: string)      // the file could not be read or parsed
    | InvalidFormat(path: string)       // ValueError: no top-level 'prompts' mapping

  const PromptsKey: string := "prompts"

  /** `_load`: the loaded document when it is a mapping with a "prompts" key.
    * `yamlAvailable` is whether pyyaml imported, `fileExists` whether the path
    * exists, and `doc` what `yaml.safe_load` returned (`None` when reading or
    * parsing raised). */
  function Load(path: string, yamlAvailable: bool, fileExists: bool, doc: Option<Yaml>)
    : (r: Result<map<string, Yaml>, LoadError>)
    ensures r.Ok? <==> yamlAvailable && fileExists && doc.Some? && doc.value.YMap?
                       && PromptsKey in doc.value.entries
    ensures r.Ok? ==> r.value == doc.value.entries
  {
    if !yamlAvailable then Err(YamlUnavailable)
    else if !fileExists then Err(PromptFileMissing(path))
    else if doc.None? then Err(UnreadableYaml(path))
    else
      var data := if Falsy(doc.value) then YMap(map[]) else doc.value;
      if !data.YMap? || PromptsKey !in data.entries then Err(InvalidFormat(path))
      else Ok(data.entries)
  }

  /** An empty document (and any other value Python treats as false) is
    * rejected, as `{}` has no "prompts" key. */
  lemma EmptyDocumentRejected(path: string, doc: Yaml)
    requires Falsy(doc)
    ensures Load(path, true, true, Some(doc)) == Err(InvalidFormat(path))
  {
  }

  /** The checks fail in order: pyyaml first, then the file, then the
    * document. */
  lemma LoadErrorOrder(path: string, yamlAvailable: bool, fileExists: bool, doc: Option<Yaml>)
    ensures !yamlAvailable ==> Load(path, yamlAvailable, fileExists, doc) == Err(YamlUnavailable)
    ensures yamlAvailable && !fileExists ==> Load(path, yamlAvailable, fileExists, doc) == Err(PromptFileMissing(path))
    ensures yamlAvailable && fileExists && doc.Some? && !(doc.value.YMap? && PromptsKey in doc.value.entries)
            ==> Load(path, yamlAvailable, fileExists, doc) == Err(InvalidFormat(path))
  {
  }

  const PathVariable: string := "PROMPT_YAML_PATH"

  /** `__init__`'s choice of file: the argument, else the environment
    * variable, else prompt.yaml beside the module. */
  function ResolvePromptPath(arg: Option<string>, env: map<string, string>, moduleDir: string): (path: string)
    ensures arg.Some? ==> path == arg.value
    ensures arg.None? && PathVariable in env ==> path == env[PathVariable]
    ensures arg.None? && PathVariable !in env ==> path == moduleDir + "/prompt.yaml"
  {
    if arg.Some? then arg.value
    else if PathVariable in env then env[PathVariable]
    else moduleDir + "/prompt.yaml"
  }

  // ---------------------------------------------------------------------------
  // PromptService.get
  // ---------------------------------------------------------------------------

  datatype GetError =
    | PromptNotFound(name: string, available: set<string>)   // KeyError
    | NotStringOrMapping(name: string)                        // ValueError
    | EntriesNotStrings(name: string)                         // ValueError

  /** `entry.get(key, "")`. */
  function Field(entry: map<string, Yaml>, key: string): Yaml {
    if key in entry then entry[key] else YStr("")
  }

  /** An entry `get` accepts: a string, or a mapping whose "system" and
    * "user" are strings when present. */
  predicate ValidEntry(entry: Yaml) {
    entry.YStr? || (entry.YMap? && Field(entry.entries, "system").YStr? && Field(entry.entries, "user").YStr?)
  }

  /** The prompt a valid entry stands for. */
  function EntryPrompt(entry: Yaml): Prompt
    requires ValidEntry(entry)
  {
    if entry.YStr? then Prompt("", entry.s)
    else Prompt(Field(entry.entries, "system").s, Field(entry.entries, "user").s)
  }

  /** A service whose `_data` was loaded from `promptPath`. Neither field is
    * changed after `__init__`. */
  datatype PromptService = PromptService(promptPath: string, data: map<string, Yaml>)
  {
    /** `_data.get("prompts")`, as the mapping of prompts when it is one. */
    function Prompts(): Option<map<string, Yaml>> {
      if PromptsKey in data && data[PromptsKey].YMap? then Some(data[PromptsKey].entries) else None
    }

    /** `get(name)`. */
    function Get(name: string): (r: Result<Prompt, GetError>)
      ensures (r.Err? && r.error.PromptNotFound?) <==> (Prompts().None? || name !in Prompts().value)
      ensures r.Err? && r.error.PromptNotFound? ==>
                r.error == PromptNotFound(name, if Prompts().Some? then Prompts().value.Keys else {})
      ensures r.Ok? <==> Prompts().Some? && name in Prompts().value && ValidEntry(Prompts().value[name])
      ensures r.Ok? ==> r.value == EntryPrompt(Prompts().value[name])
    {
      var prompts := Prompts();
      if prompts.None? || name !in prompts.value then
        Err(PromptNotFound(name, if prompts.Some? then prompts.value.Keys else {}))
      else
        var entry := prompts.value[name];
        if entry.YStr? then Ok(Prompt("", entry.s))
        else if !entry.YMap? then Err(NotStringOrMapping(name))
        else
          var system := Field(entry.entries, "system");
          var user := Field(entry.entries, "user");
          if !system.YStr? || !user.YStr? then Err(EntriesNotStrings(name))
          else Ok(Prompt(system.s, user.s))
    }
  }

  /** A string entry is a user template with an empty system template. */
  lemma StringEntry(svc: PromptService, name: string, text: string)
    requires svc.Prompts().Some? && name in svc.Prompts().value
    requires svc.Prompts().value[name] == YStr(text)
    ensures svc.Get(name) == Ok(Prompt("", text))
  {
  }

  /** Missing "system" and "user" keys default to empty templates, and a
    * present key that is not a string is an error. */
  lemma MappingEntry(svc: PromptService, name: string, entry: map<string, Yaml>)
    requires svc.Prompts().Some? && name in svc.Prompts().value
    requires svc.Prompts().value[name] == YMap(entry)
    ensures "system" !in entry && "user" !in entry ==> svc.Get(name) == Ok(Prompt("", ""))
    ensures ("system" in entry && !entry["system"].YStr?) || ("user" in entry && !entry["user"].YStr?)
            ==> svc.Get(name) == Err(EntriesNotStrings(name))
  {
  }

  /** An entry that is neither a string nor a mapping is an error. */
  lemma OtherEntry(svc: PromptService, name: string)
    requires svc.Prompts().Some? && name in svc.Prompts().value
    requires !svc.Prompts().value[name].YStr? && !svc.Prompts().value[name].YMap?
    ensures svc.Get(name) == Err(NotStringOrMapping(name))
  {
  }

  /** `PromptService(prompt_path)`: the file chosen, then `_load`. `fileExists`
    * and `read` stand for the file system. */
  function Create(arg: Option<string>, env: map<string, string>, moduleDir: string, yamlAvailable: bool,
                  fileExists: string -> bool, read: string -> Option<Yaml>): (r: Result<PromptService, LoadError>)
    ensures var path := ResolvePromptPath(arg, env, moduleDir);
      r.Ok? <==> Load(path, yamlAvailable, fileExists(path), read(path)).Ok?
    ensures r.Ok? ==> r.value.promptPath == ResolvePromptPath(arg, env, moduleDir)
                      && PromptsKey in r.value.data
    ensures r.Ok? ==> r.value.data == read(ResolvePromptPath(arg, env, moduleDir)).value.entries
  {
    var path := ResolvePromptPath(arg, env, moduleDir);
    match Load(path, yamlAvailable, fileExists(path), read(path))
    case Ok(data) => Ok(PromptService(path, data))
    case Err(e) => Err(e)
  }

  /** For a service that loaded, `get` reports a missing name only when it is
    * not among the prompts, and then lists all of them. */
  lemma LoadedServiceLookup(arg: Option<string>, env: map<string, string>, moduleDir: string,
                            fileExists: string -> bool, read: string -> Option<Yaml>, name: string)
    requires Create(arg, env, moduleDir, true, fileExists, read).Ok?
    ensures var svc := Create(arg, env, moduleDir, true, fileExists, read).value;
      svc.Prompts().Some? ==>
        (svc.Get(name).Err? && svc.Get(name).error.PromptNotFound?
         <==> name !in svc.Prompts().value)
  {
  }

  lemma EmptyTemplate(variables: map<string, string>)
    ensures Render("", variables) == ""
  {
    assert Substitute("", variables) == "";
    assert |Strip("")| == 0;
  }

  /** Rendering a prompt made from a string entry gives the user message only. */
  method RenderStringEntry(text: string, variables: map<string, string>) returns (messages: seq<Message>)
    ensures messages == [Message(UserRole, Strip(Substitute(text, variables)))]
  {
    var prompt := Prompt("", text);
    EmptyTemplate(variables);
    messages := prompt.RenderMessages(variables);
  }
}
