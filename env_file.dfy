/**
 Reading one env file (`ReadEnv` in envmerger/main.go): every line is
 trimmed; blank lines, `#` comments and lines without `=` are skipped; the
 rest are split at the first `=` into a trimmed key and a trimmed value, and
 a later line for the same key replaces the earlier one.
 */
module EnvFile {
  import opened GoStrings

  datatype Option<T> = None | Some(value: T)

  /** An error reported by the operating system or by the line scanner. */
  datatype IoError = IoError(path: string, reason: string)

  datatype Result<T> = Ok(value: T) | Err(error: IoError)

  /** The variables of one file, or of the merge of several. */
  type Env = map<string, string>

  /** What opening and scanning a file yields: all of its lines; a failure to
      open it; or a scanner failure after some lines had been read. */
  datatype Readout =
    | Lines(lines: seq<string>)
    | OpenFailed(openError: IoError)
    | ScanFailed(linesBefore: seq<string>, scanError: IoError)

  /** The files the program can see, by path. */
  type FileSystem = map<string, Readout>

  /** `os.Open` followed by a full scan: a path the file system does not hold
      cannot be opened. */
  function Open(fs: FileSystem, path: string): (r: Readout)
    ensures path in fs ==> r == fs[path]
    ensures path !in fs ==> r.OpenFailed? && r.openError.path == path
  {
    if path in fs then fs[path] else OpenFailed(IoError(path, "no such file or directory"))
  }

  /** What a stored entry looks like: key and value carry no surrounding
      whitespace, the key holds no `=` and does not start a comment. */
  predicate ValidEntry(key: string, value: string) {
    && IsTrimmed(key) && IsTrimmed(value)
    && '=' !in key
    && (key == [] || key[0] != '#')
  }

  predicate ValidEnv(env: Env) {
    forall k :: k in env ==> ValidEntry(k, env[k])
  }

  /** A trimmed line that is not a comment and holds an `=` starts with its key. */
  lemma KeyStartsLine(line: string, before: string, after: string)
    requires line != [] && IsTrimmed(line) && line[0] != '#'
    requires line == before + ['='] + after && '=' !in before
    ensures ValidEntry(TrimSpace(before), TrimSpace(after))
  {
    var key := TrimSpace(before);
    var i := LeadingSpace(before);
    TrimSpaceSlice(before);
    assert '=' !in key by {
      forall c | c in key ensures c != '=' {
        var m :| 0 <= m < |key| && key[m] == c;
        assert key[m] == before[i + m];
      }
    }
    if key != [] {
      assert before[0] == line[0];
      assert i == 0;
      assert key[0] == before[0];
    }
  }

  /** What one line of a file contributes: nothing for a blank line, a
      comment or a line without `=`; otherwise the key before its first `=`
      and the value after it. */
  function ParseLine(raw: string): (entry: Option<(string, string)>)
    ensures var line := TrimSpace(raw);
            entry.None? <==> line == [] || line[0] == '#' || '=' !in line
    ensures entry.Some? ==> ValidEntry(entry.value.0, entry.value.1)
  {
    var line := TrimSpace(raw);
    if line == [] || HasPrefix(line, "#") then None
    else
      var parts := SplitN2(line, '=');
      if |parts| != 2 then None
      else
        KeyStartsLine(line, parts[0], parts[1]);
        Some((TrimSpace(parts[0]), TrimSpace(parts[1])))
  }

  /** A line whose trimmed text is `before=after`, with no `=` in `before`
      and no comment mark at its start, stores the trimmed `after` under the
      trimmed `before`. */
  lemma ParseLineSplits(raw: string, before: string, after: string)
    requires TrimSpace(raw) == before + "=" + after
    requires '=' !in before && (before == [] || before[0] != '#')
    ensures ParseLine(raw) == Some((TrimSpace(before), TrimSpace(after)))
  {
    var line := TrimSpace(raw);
    assert line[|before|] == '=';
    assert line[0] == (if before == [] then '=' else before[0]);
    var parts := SplitN2(line, '=');
    var n := |parts[0]|;
    assert parts[0] == line[..n] == before;
    assert parts[1] == line[n + 1..] == after;
  }

  /** Line `raw` stores a value under `key`. */
  predicate Defines(raw: string, key: string) {
    ParseLine(raw).Some? && ParseLine(raw).value.0 == key
  }

  /** One loop step of `ReadEnv`: the map after line `raw`. */
  function Step(env: Env, raw: string): (r: Env)
    ensures ValidEnv(env) ==> ValidEnv(r)
  {
    match ParseLine(raw)
    case None => env
    case Some((k, v)) => env[k := v]
  }

  /** The map `ReadEnv` builds from the lines of a file, line after line. */
  function ParseLines(lines: seq<string>): (env: Env)
    ensures ValidEnv(env)
  {
    if lines == [] then map[]
    else Step(ParseLines(lines[..|lines| - 1]), lines[|lines| - 1])
  }

  /** What `ReadEnv` returns for a file. */
  function ReadResult(source: Readout): (r: Result<Env>)
    ensures r.Ok? <==> source.Lines?
    ensures r.Ok? ==> ValidEnv(r.value)
    ensures source.ScanFailed? ==> r == Err(source.scanError)
  {
    match source
    case Lines(lines) => Ok(ParseLines(lines))
    case OpenFailed(e) => Err(e)
    case ScanFailed(_, e) => Err(e)
  }

  /** `ReadEnv`: opens the file, folds its lines into a map and reports the
      open or scan error, if any, instead of the map. */
  method ReadEnv(fs: FileSystem, filePath: string) returns (r: Result<Env>)
    ensures r == ReadResult(Open(fs, filePath))
    ensures r.Ok? ==> Open(fs, filePath).Lines? && ValidEnv(r.value)
  {
    var source := Open(fs, filePath);
    if source.OpenFailed? {
      return Err(source.openError);
    }
    var lines := if source.Lines? then source.lines else source.linesBefore;
    var envMap: Env := map[];
    for i := 0 to |lines|
      invariant envMap == ParseLines(lines[..i])
    {
      assert lines[..i + 1][..i] == lines[..i];
      var line := TrimSpace(lines[i]);
      if line == [] || HasPrefix(line, "#") {
        continue;
      }
      var parts := SplitN2(line, '=');
      if |parts| != 2 {
        continue;
      }
      var key := TrimSpace(parts[0]);
      var value := TrimSpace(parts[1]);
      envMap := envMap[key := value];
    }
    if source.ScanFailed? {
      return Err(source.scanError);
    }
    assert lines[..|lines|] == lines;
    return Ok(envMap);
  }

  /** Lines that parse alike give the same map. */
  lemma {:induction false} ParseLinesAlike(a: seq<string>, b: seq<string>)
    requires |a| == |b| && forall i :: 0 <= i < |a| ==> ParseLine(a[i]) == ParseLine(b[i])
    ensures ParseLines(a) == ParseLines(b)
  {
    if a != [] {
      var n := |a| - 1;
      assert forall i :: 0 <= i < n ==> a[..n][i] == a[i] && b[..n][i] == b[i];
      ParseLinesAlike(a[..n], b[..n]);
    }
  }

  /** A blank line, a comment or a line without `=` leaves the map as it was. */
  lemma SkippedLineChangesNothing(lines: seq<string>, raw: string)
    requires var line := TrimSpace(raw); line == [] || line[0] == '#' || '=' !in line
    ensures ParseLines(lines + [raw]) == ParseLines(lines)
  {
    assert (lines + [raw])[..|lines|] == lines;
  }

  /** A key is stored exactly when some line defines it. */
  lemma ParseLinesKeys(lines: seq<string>, key: string)
    ensures key in ParseLines(lines) <==> exists j :: 0 <= j < |lines| && Defines(lines[j], key)
  {
    if key in ParseLines(lines) {
      var j := DefiningLine(lines, key);
    }
    if j :| 0 <= j < |lines| && Defines(lines[j], key) {
      DefinedKeyStored(lines, j, key);
    }
  }

  /** The last line that defines a stored key. */
  lemma {:induction false} DefiningLine(lines: seq<string>, key: string) returns (j: nat)
    requires key in ParseLines(lines)
    ensures j < |lines| && Defines(lines[j], key)
  {
    var n := |lines| - 1;
    var init := lines[..n];
    assert ParseLines(lines) == Step(ParseLines(init), lines[n]);
    if Defines(lines[n], key) {
      j := n;
    } else {
      StepKeepsOtherKeys(ParseLines(init), lines[n], key);
      j := DefiningLine(init, key);
      assert init[j] == lines[j];
    }
  }

  /** A key some line defines is stored. */
  lemma {:induction false} DefinedKeyStored(lines: seq<string>, j: nat, key: string)
    requires j < |lines| && Defines(lines[j], key)
    ensures key in ParseLines(lines)
  {
    var n := |lines| - 1;
    var init := lines[..n];
    assert ParseLines(lines) == Step(ParseLines(init), lines[n]);
    if j < n {
      assert init[j] == lines[j];
      DefinedKeyStored(init, j, key);
    }
  }

  /** A key ends with the value of the last line that defines it. */
  lemma {:induction false} ParseLinesLastWins(lines: seq<string>, j: nat, key: string, value: string)
    requires j < |lines| && ParseLine(lines[j]) == Some((key, value))
    requires forall i :: j < i < |lines| ==> !Defines(lines[i], key)
    ensures key in ParseLines(lines) && ParseLines(lines)[key] == value
  {
    var n := |lines| - 1;
    var init := lines[..n];
    var before := ParseLines(init);
    assert ParseLines(lines) == Step(before, lines[n]);
    if j < n {
      forall i | j < i < |init| ensures !Defines(init[i], key) {
        assert init[i] == lines[i];
      }
      assert init[j] == lines[j];
      ParseLinesLastWins(init, j, key, value);
      StepKeepsOtherKeys(before, lines[n], key);
    } else {
      assert j == n;
      StepStores(before, lines[j], key, value);
    }
  }

  /** A line that defines `key` stores its value under `key`. */
  lemma StepStores(env: Env, raw: string, key: string, value: string)
    requires ParseLine(raw) == Some((key, value))
    ensures Step(env, raw) == env[key := value]
  {
  }

  /** A line that does not define `key` leaves its entry alone. */
  lemma StepKeepsOtherKeys(env: Env, raw: string, key: string)
    requires !Defines(raw, key)
    ensures key in Step(env, raw) <==> key in env
    ensures key in env ==> Step(env, raw)[key] == env[key]
  {
  }

  /** The split is at the first `=`: a value may itself contain `=`. */
  lemma ValueMayHoldEquals()
    ensures ParseLine("U=a=b") == Some(("U", "a=b"))
  {
    var s := "U=a=b";
    assert TrimSpace(s) == s;
    assert Index(s, '=') == 1;
    assert s[..1] == "U" && s[2..] == "a=b";
    assert SplitN2(s, '=') == ["U", "a=b"];
    assert TrimSpace("U") == "U" && TrimSpace("a=b") == "a=b";
  }
}
