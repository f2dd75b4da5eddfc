/** The backend's own dotenv loader: `KEY=VALUE` lines of a local file are
  * copied into the process environment, modelled as a mapping from names to
  * values. */
module EnvLoader {
  import opened Wrappers
  import opened Text

  // ---------------------------------------------------------------------------
  // One line
  // ---------------------------------------------------------------------------

  datatype Assignment = Assignment(key: string, value: string)

  /** `value.strip().strip("'").strip('"')`. */
  function NormalizeValue(v: string): (r: string)
    ensures |r| > 0 ==> r[0] != '"' && r[|r| - 1] != '"'
    ensures |r| <= |v|
  {
    StripChar(StripChar(Strip(v), '\''), '"')
  }

  /** Lines that are blank, comments, or without `=` assign nothing. */
  predicate Skipped(line: string) {
    |line| == 0 || line[0] == '#' || '=' !in line
  }

  /** What one line of the file assigns, if anything: the line is stripped,
    * split at its first `=`, the key stripped and the value normalised; an
    * empty key assigns nothing. */
  function ParseLine(raw: string): (r: Option<Assignment>)
    ensures Skipped(Strip(raw)) ==> r.None?
    ensures r.Some? ==> |r.value.key| > 0 && '=' !in r.value.key
                        && r.value.key[0] != '#' && Strip(r.value.key) == r.value.key
  {
    var line := Strip(raw);
    if |line| == 0 || line[0] == '#' || '=' !in line then None
    else
      var i := IndexOf(line, '=');
      var key := Strip(line[..i]);
      var value := NormalizeValue(line[i + 1..]);
      KeyFacts(line, i);
      if |key| == 0 then None else Some(Assignment(key, value))
  }

  lemma KeyFacts(line: string, i: nat)
    requires |line| > 0 && !IsSpace(line[0]) && line[0] != '#'
    requires i <= |line| && forall k :: 0 <= k < i ==> line[k] != '='
    ensures var key := Strip(line[..i]);
      '=' !in key && (|key| > 0 ==> key[0] != '#') && Strip(key) == key
  {
    var head := line[..i];
    var key := Strip(head);
    StripIdempotent(head, Whitespace);
    if |key| > 0 {
      var pre, post := StripParts(head, Whitespace);
      KeyChars(line, i, pre, key, post);
    }
  }

  /** The middle part of a split of `line[..i]` whose first part is only
    * whitespace starts the line, so it holds no `=` and starts like it. */
  lemma KeyChars(line: string, i: nat, pre: string, key: string, post: string)
    requires |line| > 0 && !IsSpace(line[0])
    requires i <= |line| && forall k :: 0 <= k < i ==> line[k] != '='
    requires line[..i] == pre + key + post && AllDrop(pre, Whitespace) && |key| > 0
    ensures '=' !in key && key[0] == line[0]
  {
    assert |pre| == 0;
    forall k | 0 <= k < |key| ensures key[k] != '=' {
      assert key[k] == line[..i][k] == line[k];
    }
  }

  /** The line is split at its first `=`: for any line `k=v` where `k` holds
    * no `=` and is not blank or a comment once stripped, the key is `k`
    * stripped and everything after that `=`, further `=` included, is the
    * value. Whitespace around the line goes with the strip. */
  lemma SplitAtFirstEquals(k: string, v: string)
    requires '=' !in k && |Strip(k)| > 0 && Strip(k)[0] != '#'
    ensures ParseLine(k + "=" + v) == Some(Assignment(Strip(k), NormalizeValue(v)))
  {
    var a, k0 := TrimKey(k);
    var v0, b := TrimValue(v);
    var line, line0 := k + "=" + v, k0 + "=" + v0;
    assert Strip(line) == Strip(line0) by {
      RegroupLine(a, k0, v0, b);
      StripIgnoresAround(a, line0, b, Whitespace);
    }
    SameStripSameParse(line, line0);
    SplitStrippedLine(k0, v0);
  }

  lemma RegroupLine(a: string, k0: string, v0: string, b: string)
    ensures (a + k0) + "=" + (v0 + b) == a + (k0 + "=" + v0) + b
  {
  }

  /** A key with its leading whitespace split off. */
  lemma TrimKey(k: string) returns (a: string, k0: string)
    requires '=' !in k && |Strip(k)| > 0 && Strip(k)[0] != '#'
    ensures k == a + k0 && AllDrop(a, Whitespace)
    ensures '=' !in k0 && |k0| > 0 && !IsSpace(k0[0]) && k0[0] != '#' && Strip(k0) == Strip(k)
  {
    a := LStripParts(k, Whitespace);
    k0 := LStrip(k, Whitespace);
    RStripPrefix(k0, Whitespace);
    assert |k0| > 0 && Strip(k)[0] == k0[0];
    forall j | 0 <= j < |k0| ensures k0[j] != '=' {
      assert k0[j] == k[|a| + j];
    }
    assert k == a + k0 + "";
    StripIgnoresAround(a, k0, "", Whitespace);
  }

  /** A value with its trailing whitespace split off. */
  lemma TrimValue(v: string) returns (v0: string, b: string)
    ensures v == v0 + b && AllDrop(b, Whitespace)
    ensures (|v0| == 0 || !IsSpace(v0[|v0| - 1])) && NormalizeValue(v0) == NormalizeValue(v)
  {
    b := RStripParts(v, Whitespace);
    v0 := RStrip(v, Whitespace);
    assert v == "" + v0 + b;
    StripIgnoresAround("", v0, b, Whitespace);
  }

  /** `ParseLine` looks only at the stripped line. */
  lemma SameStripSameParse(r1: string, r2: string)
    requires Strip(r1) == Strip(r2)
    ensures ParseLine(r1) == ParseLine(r2)
  {
  }

  /** The same split for a line that is already stripped. */
  lemma SplitStrippedLine(k: string, v: string)
    requires '=' !in k && |k| > 0 && !IsSpace(k[0]) && k[0] != '#'
    requires |v| == 0 || !IsSpace(v[|v| - 1])
    ensures ParseLine(k + "=" + v) == Some(Assignment(Strip(k), NormalizeValue(v)))
  {
    StripEmptyIff(k, Whitespace);
    var line := k + "=" + v;
    EqualsLine(k, v, line);
    assert Strip(line) == line;
  }

  /** The facts about `k + "=" + v` that `ParseLine` looks at. */
  lemma EqualsLine(k: string, v: string, line: string)
    requires line == k + "=" + v
    requires '=' !in k && |k| > 0 && !IsSpace(k[0])
    requires |v| == 0 || !IsSpace(v[|v| - 1])
    ensures Strip(line) == line && line[0] == k[0] && '=' in line
    ensures IndexOf(line, '=') == |k| && line[..|k|] == k && line[|k| + 1..] == v
  {
    assert line[0] == k[0];
    assert line[|line| - 1] == (if |v| == 0 then '=' else v[|v| - 1]);
    StripKeeps(line, Whitespace);
    assert line[|k|] == '=';
    forall j | 0 <= j < |k| ensures line[j] != '=' {
      assert line[j] == k[j];
    }
    IndexOfFirst(line, '=', |k|);
    assert line[..|k|] == k && line[|k| + 1..] == v;
  }

  lemma IndexOfFirst(s: string, c: char, i: nat)
    requires i < |s| && s[i] == c && forall k :: 0 <= k < i ==> s[k] != c
    ensures IndexOf(s, c) == i
  {
  }

  /** A line whose text before the first `=` is blank assigns nothing: the
    * key is empty once stripped. */
  lemma EmptyKeySkipped(k: string, v: string)
    requires '=' !in k && AllDrop(k, Whitespace)
    ensures ParseLine(k + "=" + v) == None
  {
    var line, rest := k + "=" + v, "=" + v;
    assert Strip(line) == Strip(rest) by {
      assert line == k + rest + "";
      StripIgnoresAround(k, rest, "", Whitespace);
    }
    assert !AllDrop(rest, Whitespace) by { assert rest[0] == '='; }
    StripEmptyIff(rest, Whitespace);
    assert LStrip(rest, Whitespace) == rest;
    RStripPrefix(rest, Whitespace);
    var stripped := Strip(rest);
    assert stripped[0] == '=';
    IndexOfFirst(stripped, '=', 0);
    assert Strip(stripped[..0]) == "";
  }

  /** Double quotes go last: a value in double quotes keeps whatever single
    * quotes it holds. */
  lemma DoubleQuotesOutside(m: string)
    requires |m| == 0 || (m[0] != '"' && m[|m| - 1] != '"')
    ensures NormalizeValue("\"" + m + "\"") == m
  {
    var v := "\"" + m + "\"";
    assert v[0] == '"' && v[|v| - 1] == '"';
    StripKeeps(v, Whitespace);
    StripKeeps(v, OneChar('\''));
    StripUnique("\"", m, "\"", OneChar('"'));
  }

  /** Single quotes go first: inside them, double quotes are still removed. */
  lemma SingleQuotesOutside(m: string)
    requires |m| == 0 || (m[0] != '\'' && m[|m| - 1] != '\'')
    ensures NormalizeValue("'" + m + "'") == StripChar(m, '"')
  {
    var v := "'" + m + "'";
    assert v[0] == '\'' && v[|v| - 1] == '\'';
    StripKeeps(v, Whitespace);
    StripUnique("'", m, "'", OneChar('\''));
  }

  // ---------------------------------------------------------------------------
  // A whole file
  // ---------------------------------------------------------------------------

  /** The lines of a file, each as what it assigns. */
  function ParseLines(lines: seq<string>): (parsed: seq<Option<Assignment>>)
    ensures |parsed| == |lines|
    ensures forall i :: 0 <= i < |lines| ==> parsed[i] == ParseLine(lines[i])
    decreases |lines|
  {
    if |lines| == 0 then []
    else ParseLines(lines[..|lines| - 1]) + [ParseLine(lines[|lines| - 1])]
  }

  /** One line's effect: without `override` a name already set is kept. */
  function Apply(env: map<string, string>, a: Option<Assignment>, override: bool): map<string, string> {
    match a
    case None => env
    case Some(a) => if !override && a.key in env then env else env[a.key := a.value]
  }

  /** The environment after the parsed lines, in order. */
  function ApplyAll(env: map<string, string>, parsed: seq<Option<Assignment>>, override: bool)
    : map<string, string>
    decreases |parsed|
  {
    if |parsed| == 0 then env
    else Apply(ApplyAll(env, parsed[..|parsed| - 1], override), parsed[|parsed| - 1], override)
  }

  /** The names the lines assign. */
  function AssignedKeys(parsed: seq<Option<Assignment>>): set<string> {
    set i | 0 <= i < |parsed| && parsed[i].Some? :: parsed[i].value.key
  }

  /** The value of the first line that assigns `key`. */
  function FirstValue(parsed: seq<Option<Assignment>>, key: string): Option<string>
    decreases |parsed|
  {
    if |parsed| == 0 then None
    else
      var before := FirstValue(parsed[..|parsed| - 1], key);
      var last := parsed[|parsed| - 1];
      if before.Some? then before
      else if last.Some? && last.value.key == key then Some(last.value.value)
      else None
  }

  /** The value of the last line that assigns `key`. */
  function LastValue(parsed: seq<Option<Assignment>>, key: string): Option<string>
    decreases |parsed|
  {
    if |parsed| == 0 then None
    else
      var last := parsed[|parsed| - 1];
      if last.Some? && last.value.key == key then Some(last.value.value)
      else LastValue(parsed[..|parsed| - 1], key)
  }

  lemma AssignedKeysSnoc(parsed: seq<Option<Assignment>>)
    requires |parsed| > 0
    ensures var init, last := parsed[..|parsed| - 1], parsed[|parsed| - 1];
      AssignedKeys(parsed) == AssignedKeys(init) + (if last.Some? then {last.value.key} else {})
  {
    var init := parsed[..|parsed| - 1];
    assert forall i :: 0 <= i < |init| ==> init[i] == parsed[i];
  }

  /** Only names the lines assign can change or appear: the names afterwards
    * are those before and those assigned, and every other entry is kept. */
  lemma {:induction false} OnlyAssignedKeysChange(env: map<string, string>, parsed: seq<Option<Assignment>>,
                                                   override: bool)
    ensures ApplyAll(env, parsed, override).Keys == env.Keys + AssignedKeys(parsed)
    ensures forall k :: k in env && k !in AssignedKeys(parsed) ==> ApplyAll(env, parsed, override)[k] == env[k]
    decreases |parsed|
  {
    if |parsed| > 0 {
      OnlyAssignedKeysChange(env, parsed[..|parsed| - 1], override);
      AssignedKeysSnoc(parsed);
    }
  }

  /** Without `override`, names already set are never changed, and a new name
    * takes the value of its first assignment. */
  lemma {:induction false} FirstOccurrenceWins(env: map<string, string>, parsed: seq<Option<Assignment>>)
    ensures forall k :: k in env ==>
              k in ApplyAll(env, parsed, false) && ApplyAll(env, parsed, false)[k] == env[k]
    ensures forall k :: k !in env && FirstValue(parsed, k).Some? ==>
              k in ApplyAll(env, parsed, false) && ApplyAll(env, parsed, false)[k] == FirstValue(parsed, k).value
    decreases |parsed|
  {
    if |parsed| > 0 {
      FirstOccurrenceWins(env, parsed[..|parsed| - 1]);
      FirstValueIsAssigned(env, parsed[..|parsed| - 1]);
    }
  }

  /** Without `override`, a name that has no first assignment yet is unset
    * unless it was set before. */
  lemma {:induction false} FirstValueIsAssigned(env: map<string, string>, parsed: seq<Option<Assignment>>)
    ensures forall k :: k !in env && FirstValue(parsed, k).None? ==> k !in ApplyAll(env, parsed, false)
    decreases |parsed|
  {
    if |parsed| > 0 {
      FirstValueIsAssigned(env, parsed[..|parsed| - 1]);
    }
  }

  /** With `override`, every valid line assigns, so the last assignment of a
    * name decides its value. */
  lemma {:induction false} LastOccurrenceWins(env: map<string, string>, parsed: seq<Option<Assignment>>)
    ensures forall k :: LastValue(parsed, k).Some? ==>
              k in ApplyAll(env, parsed, true) && ApplyAll(env, parsed, true)[k] == LastValue(parsed, k).value
    decreases |parsed|
  {
    if |parsed| > 0 {
      LastOccurrenceWins(env, parsed[..|parsed| - 1]);
    }
  }

  /** What `exists()`, `is_file()` and `read_text()` report for a path;
    * `text` is `None` when reading raises (bytes that are not UTF-8, no
    * permission to read). */
  datatype EnvFile = EnvFile(fileExists: bool, isFile: bool, text: Option<string>)

  /** The file is there but `read_text` raises: `load_env_file` propagates
    * the exception before any line is applied. */
  predicate ReadFails(file: EnvFile) {
    file.fileExists && file.isFile && file.text.None?
  }

  /** The reference definition of `load_env_file`: the environment when the
    * call returns or raises. */
  function LoadedEnv(env: map<string, string>, file: EnvFile, override: bool): (r: map<string, string>)
    ensures !file.fileExists || !file.isFile || ReadFails(file) ==> r == env
  {
    if !file.fileExists || !file.isFile || file.text.None? then env
    else ApplyAll(env, ParseLines(SplitLines(file.text.value)), override)
  }

  /** The reference definition of `load_env_local`: the files in turn, up to
    * and including the first whose read raises. */
  function LoadedAll(env: map<string, string>, files: seq<EnvFile>, override: bool): map<string, string>
    decreases |files|
  {
    if |files| == 0 || ReadFails(files[0]) then env
    else LoadedAll(LoadedEnv(env, files[0], override), files[1..], override)
  }

  /** Some file among `files` cannot be read. */
  predicate AnyReadFails(files: seq<EnvFile>) {
    exists i :: 0 <= i < |files| && ReadFails(files[i])
  }

  const EnvFileName: string := ".env.local"

  /** Without `override`, a name the backend file sets (or that was set
    * before) keeps that value after the root file. */
  lemma BackendFileFirst(env: map<string, string>, backend: EnvFile, root: EnvFile)
    ensures var first := LoadedEnv(env, backend, false);
      forall k :: k in first ==>
        k in LoadedAll(env, [backend, root], false) && LoadedAll(env, [backend, root], false)[k] == first[k]
  {
    var first := LoadedEnv(env, backend, false);
    if !ReadFails(backend) {
      assert [backend, root][1..] == [root];
      assert LoadedAll(env, [backend, root], false) == LoadedAll(first, [root], false);
      assert [root][1..] == [];
      assert LoadedAll(first, [root], false) == LoadedEnv(first, root, false);
      if root.fileExists && root.isFile && root.text.Some? {
        FirstOccurrenceWins(first, ParseLines(SplitLines(root.text.value)));
      }
    }
  }

  /** When the backend file cannot be read, the exception ends
    * `load_env_local` before the root file is looked at. */
  lemma BackendReadFailureStops(env: map<string, string>, backend: EnvFile, root: EnvFile, override: bool)
    requires ReadFails(backend)
    ensures LoadedAll(env, [backend, root], override) == env
  {
  }

  /** One more line of the loop is one more `Apply`. */
  lemma ApplyNextLine(env: map<string, string>, lines: seq<string>, i: nat, override: bool)
    requires i < |lines|
    ensures ApplyAll(env, ParseLines(lines[..i + 1]), override)
            == Apply(ApplyAll(env, ParseLines(lines[..i]), override), ParseLine(lines[i]), override)
  {
    assert lines[..i + 1][..i] == lines[..i];
    var done := ParseLines(lines[..i]);
    assert ParseLines(lines[..i + 1]) == done + [ParseLine(lines[i])];
    assert (done + [ParseLine(lines[i])])[..|done|] == done;
  }

  /** The effect of a line the loop skips before splitting it. */
  lemma SkippedLineEffect(raw: string, vars: map<string, string>, override: bool)
    requires Skipped(Strip(raw))
    ensures Apply(vars, ParseLine(raw), override) == vars
  {
  }

  /** The effect of a line the loop splits, guard by guard. */
  lemma SplitLineEffect(p: Option<Assignment>, key: string, value: string,
                        vars: map<string, string>, override: bool)
    requires p == if |key| == 0 then None else Some(Assignment(key, value))
    ensures Apply(vars, p, override)
            == if |key| == 0 || (!override && key in vars) then vars else vars[key := value]
  {
  }

  /** What `ParseLine` gives for a line that is split. */
  lemma SplitLineParse(raw: string, line: string, eq: nat, key: string, value: string)
    requires line == Strip(raw) && !Skipped(line)
    requires eq == IndexOf(line, '=') && key == Strip(line[..eq]) && value == NormalizeValue(line[eq + 1..])
    ensures ParseLine(raw) == if |key| == 0 then None else Some(Assignment(key, value))
  {
  }

  /** The process environment `os.environ`. */
  class Environment {
    var vars: map<string, string>

    constructor(initial: map<string, string>)
      ensures vars == initial
    {
      vars := initial;
    }

    /** `load_env_file(path, override=override)`, with `file` what the file
      * system reports for `path`; `raised` is whether `read_text` raised. */
    method LoadEnvFile(file: EnvFile, override: bool) returns (raised: bool)
      modifies this
      ensures raised == ReadFails(file)
      ensures vars == LoadedEnv(old(vars), file, override)
    {
      raised := false;
      if !file.fileExists || !file.isFile {
        return;
      }
      if file.text.None? {
        raised := true;
        return;
      }
      var lines := SplitLines(file.text.value);
      for i := 0 to |lines|
        invariant vars == ApplyAll(old(vars), ParseLines(lines[..i]), override)
      {
        ApplyNextLine(old(vars), lines, i, override);
        var line := Strip(lines[i]);
        if |line| == 0 || line[0] == '#' {
          SkippedLineEffect(lines[i], vars, override);
          continue;
        }
        if '=' !in line {
          SkippedLineEffect(lines[i], vars, override);
          continue;
        }
        var eq := IndexOf(line, '=');
        var key := Strip(line[..eq]);
        var value := NormalizeValue(line[eq + 1..]);
        SplitLineParse(lines[i], line, eq, key, value);
        SplitLineEffect(ParseLine(lines[i]), key, value, vars, override);
        if |key| == 0 {
          continue;
        }
        if !override && key in vars {
          continue;
        }
        vars := vars[key := value];
      }
      assert lines[..|lines|] == lines;
    }

    /** `load_env_local(override=override)`: the `.env.local` of the backend
      * directory, then that of its parent, the repository root. `files`
      * stands for the file system; `raised` is whether a read raised, which
      * ends the loop and reaches the caller. */
    method LoadEnvLocal(backendDir: string, rootDir: string, files: string -> EnvFile, override: bool)
      returns (raised: bool)
      modifies this
      ensures var candidates := [files(backendDir + "/" + EnvFileName), files(rootDir + "/" + EnvFileName)];
        raised == AnyReadFails(candidates) && vars == LoadedAll(old(vars), candidates, override)
    {
      var candidates := [files(backendDir + "/" + EnvFileName), files(rootDir + "/" + EnvFileName)];
      raised := false;
      var i := 0;
      while i < |candidates|
        invariant 0 <= i <= |candidates|
        invariant !AnyReadFails(candidates[..i])
        invariant LoadedAll(vars, candidates[i..], override) == LoadedAll(old(vars), candidates, override)
      {
        assert candidates[i..][0] == candidates[i] && candidates[i..][1..] == candidates[i + 1..];
        raised := LoadEnvFile(candidates[i], override);
        if raised {
          return;
        }
        assert candidates[..i + 1] == candidates[..i] + [candidates[i]];
        i := i + 1;
      }
      assert candidates[..i] == candidates;
    }
  }
}
