/**
 Merging env files (`MergeEnvFiles` in envmerger/main.go): the files are read
 in the order given, each file's map is laid over the merged map so that a
 later file overrides an earlier one, the first read error aborts the merge,
 and the merged map is written out as one `key=value` line per entry, in
 whatever order the map is iterated.
 */
module EnvMerger {
  import opened GoStrings
  import opened EnvFile

  /** The maps laid over one another from left to right: a later map
      overrides an earlier one on a shared key. */
  function Overlay(envs: seq<Env>): (r: Env)
    ensures forall i :: 0 <= i < |envs| ==> envs[i].Keys <= r.Keys
    ensures envs != [] ==> forall k :: k in envs[|envs| - 1] ==> r[k] == envs[|envs| - 1][k]
  {
    if envs == [] then map[] else Overlay(envs[..|envs| - 1]) + envs[|envs| - 1]
  }

  /** The maps of the files, read in order; the error of the first file that
      cannot be read stops the reading. */
  function ReadAll(fs: FileSystem, paths: seq<string>): (r: Result<seq<Env>>)
    ensures r.Ok? ==> |r.value| == |paths|
  {
    if paths == [] then Ok([])
    else
      var n := |paths| - 1;
      match ReadAll(fs, paths[..n])
      case Err(e) => Err(e)
      case Ok(envs) =>
        match ReadResult(Open(fs, paths[n]))
        case Err(e) => Err(e)
        case Ok(env) => Ok(envs + [env])
  }

  /** The merged map of the files, or the first read error. */
  function Merge(fs: FileSystem, paths: seq<string>): (r: Result<Env>)
    ensures r.Ok? ==> ValidEnv(r.value)
  {
    match ReadAll(fs, paths)
    case Err(e) => Err(e)
    case Ok(envs) =>
      ReadAllReadsEach(fs, paths);
      OverlayValid(envs);
      Ok(Overlay(envs))
  }

  /** The text of the line written for one entry, without its line break. */
  function Record(key: string, value: string): string {
    key + "=" + value
  }

  /** The line written for one entry (`"%s=%s\n"`). */
  function FormatLine(key: string, value: string): string {
    Record(key, value) + "\n"
  }

  /** A record splits at its `=` back into its key and value, when the key
      holds no `=`. */
  lemma RecordSplits(key: string, value: string)
    requires '=' !in key
    ensures SplitN2(Record(key, value), '=') == [key, value]
  {
    var line := Record(key, value);
    assert line[|key|] == '=' && line[..|key|] == key && line[|key| + 1..] == value;
  }

  /** The line break that ends a written line does not change how it parses. */
  lemma FormatLineParses(key: string, value: string)
    ensures ParseLine(FormatLine(key, value)) == ParseLine(Record(key, value))
  {
    TrimSpaceDropsTrailing(Record(key, value), '\n');
  }

  /** What creating and writing the output file will do: fail at creation,
      fail at the write of line number `n` (counting from 0), or succeed. */
  datatype Sink = Sink(createError: Option<IoError>, failingWrite: Option<(nat, IoError)>)

  /** The output file after the run: never created, or created and holding
      the lines written to it, in order. */
  datatype Output = NotCreated | Created(path: string, written: seq<string>)

  /** `keys` lists distinct keys of `env`, and `written` holds their lines in
      that order. */
  predicate WrittenInOrder(env: Env, keys: seq<string>, written: seq<string>) {
    && |written| == |keys|
    && (forall i :: 0 <= i < |keys| ==> keys[i] in env && written[i] == FormatLine(keys[i], env[keys[i]]))
    && (forall i, j :: 0 <= i < j < |keys| ==> keys[i] != keys[j])
  }

  /** The outcomes the write loop allows: the error of creation or of the
      failing write (after the lines before it), or every entry written once. */
  predicate WriteOutcome(env: Env, outputFile: string, sink: Sink, keys: seq<string>,
                   err: Option<IoError>, output: Output)
  {
    match sink.createError
    case Some(e) => err == Some(e) && output == NotCreated
    case None =>
      && output.Created? && output.path == outputFile
      && WrittenInOrder(env, keys, output.written)
      && if sink.failingWrite.Some? && sink.failingWrite.value.0 < |env| then
           err == Some(sink.failingWrite.value.1) && |keys| == sink.failingWrite.value.0
         else
           err == None && env.Keys == set k | k in keys
  }

  /** Writes the merged map: creates the file, then one `key=value` line per
      entry in the map's iteration order (here any order); the first failure
      ends the write. `keys` is the order the entries were visited in. */
  method WriteEnv(env: Env, outputFile: string, sink: Sink)
    returns (err: Option<IoError>, output: Output, keys: seq<string>)
    ensures WriteOutcome(env, outputFile, sink, keys, err, output)
  {
    keys := [];
    if sink.createError.Some? {
      return sink.createError, NotCreated, keys;
    }
    var written: seq<string> := [];
    var pending := env.Keys;
    while pending != {}
      invariant pending <= env.Keys
      invariant forall k :: k in env ==> (k in pending <==> k !in keys)
      invariant |keys| + |pending| == |env|
      invariant WrittenInOrder(env, keys, written)
      invariant sink.failingWrite.Some? ==> |keys| <= sink.failingWrite.value.0
      decreases pending
    {
      var key :| key in pending;
      if sink.failingWrite.Some? && sink.failingWrite.value.0 == |written| {
        assert |written| < |env|;
        return Some(sink.failingWrite.value.1), Created(outputFile, written), keys;
      }
      written := written + [FormatLine(key, env[key])];
      keys := keys + [key];
      pending := pending - {key};
    }
    assert |keys| == |env| && pending == {};
    return None, Created(outputFile, written), keys;
  }

  /** The merged map once the entries of `env` whose keys are in `done`
      have been copied over `before`. */
  function CopiedOver(before: Env, env: Env, done: set<string>): Env {
    before + map k | k in env && k in done :: env[k]
  }

  /** The inner loop of `MergeEnvFiles`: copies every entry of `env` into
      `merged`, visiting the keys in any order. */
  method CopyEntries(merged: Env, env: Env) returns (r: Env)
    ensures r == merged + env
  {
    r := merged;
    var pending := env.Keys;
    while pending != {}
      invariant pending <= env.Keys
      invariant r == CopiedOver(merged, env, env.Keys - pending)
      decreases pending
    {
      var key :| key in pending;
      CopyOneMore(merged, env, env.Keys - pending, key);
      r := r[key := env[key]];
      assert env.Keys - (pending - {key}) == (env.Keys - pending) + {key};
      pending := pending - {key};
    }
    CopiedAll(merged, env);
  }

  /** The outer loop of `MergeEnvFiles`: reads the input files in order and
      copies each one's entries over the merged map; the first read error
      ends the loop. */
  method ReadAndOverlay(fs: FileSystem, inputFiles: seq<string>) returns (r: Result<Env>)
    ensures r == Merge(fs, inputFiles)
  {
    var finalEnv: Env := map[];
    ghost var envs: seq<Env> := [];
    for i := 0 to |inputFiles|
      invariant ReadAll(fs, inputFiles[..i]) == Ok(envs)
      invariant finalEnv == Overlay(envs)
    {
      var env := ReadEnv(fs, inputFiles[i]);
      ReadAllNext(fs, inputFiles, i);
      if env.Err? {
        ReadAllStopsAtError(fs, inputFiles, i + 1);
        return Err(env.error);
      }
      finalEnv := CopyEntries(finalEnv, env.value);
      OverlaySnoc(envs, env.value);
      envs := envs + [env.value];
    }
    assert inputFiles[..|inputFiles|] == inputFiles;
    return Ok(finalEnv);
  }

  /** `MergeEnvFiles`: merges the input files; on a read error returns it
      without creating the output file, otherwise writes the merged map. */
  method MergeEnvFiles(fs: FileSystem, outputFile: string, inputFiles: seq<string>, sink: Sink)
    returns (err: Option<IoError>, output: Output, keys: seq<string>)
    ensures match Merge(fs, inputFiles)
            case Err(e) => err == Some(e) && output == NotCreated
            case Ok(env) => WriteOutcome(env, outputFile, sink, keys, err, output)
  {
    var merged := ReadAndOverlay(fs, inputFiles);
    if merged.Err? {
      return Some(merged.error), NotCreated, [];
    }
    err, output, keys := WriteEnv(merged.value, outputFile, sink);
  }

  /** Copying one more entry of `env`. */
  lemma CopyOneMore(before: Env, env: Env, done: set<string>, key: string)
    requires key in env
    ensures CopiedOver(before, env, done)[key := env[key]] == CopiedOver(before, env, done + {key})
  {
  }

  /** Copying every entry of `env` over `before` lays `env` over it. */
  lemma CopiedAll(before: Env, env: Env)
    ensures CopiedOver(before, env, env.Keys) == before + env
  {
    assert (map k | k in env && k in env.Keys :: env[k]) == env;
  }

  /** Laying one more map over the overlay. */
  lemma OverlaySnoc(envs: seq<Env>, env: Env)
    ensures Overlay(envs + [env]) == Overlay(envs) + env
  {
    assert (envs + [env])[..|envs|] == envs;
  }

  /** Reading one more file after the first `i`. */
  lemma ReadAllNext(fs: FileSystem, paths: seq<string>, i: nat)
    requires i < |paths|
    ensures ReadAll(fs, paths[..i + 1]) ==
            match ReadAll(fs, paths[..i])
            case Err(e) => Err(e)
            case Ok(envs) =>
              match ReadResult(Open(fs, paths[i]))
              case Err(e) => Err(e)
              case Ok(env) => Ok(envs + [env])
  {
    assert paths[..i + 1][..i] == paths[..i];
  }

  /** An error in reading the first `i` files is the error of the merge. */
  lemma ReadAllStopsAtError(fs: FileSystem, paths: seq<string>, i: nat)
    requires i <= |paths| && ReadAll(fs, paths[..i]).Err?
    ensures ReadAll(fs, paths) == ReadAll(fs, paths[..i])
  {
    assert paths == paths[..i] + paths[i..];
    ReadAllAppend(fs, paths[..i], paths[i..]);
  }

  /** Reading `p + q` reads `p`, then `q`. */
  lemma {:induction false} ReadAllAppend(fs: FileSystem, p: seq<string>, q: seq<string>)
    ensures ReadAll(fs, p + q) ==
            match ReadAll(fs, p)
            case Err(e) => Err(e)
            case Ok(a) =>
              match ReadAll(fs, q)
              case Err(e) => Err(e)
              case Ok(b) => Ok(a + b)
  {
    if q == [] {
      assert p + q == p;
      if ReadAll(fs, p).Ok? {
        assert ReadAll(fs, p).value + [] == ReadAll(fs, p).value;
      }
    } else {
      var n := |q| - 1;
      var init := q[..n];
      assert (p + q)[..|p + q| - 1] == p + init;
      assert (p + q)[|p + q| - 1] == q[n];
      ReadAllAppend(fs, p, init);
      var last := ReadResult(Open(fs, q[n]));
      if ReadAll(fs, p).Ok? && ReadAll(fs, init).Ok? && last.Ok? {
        var a, b := ReadAll(fs, p).value, ReadAll(fs, init).value;
        assert a + (b + [last.value]) == (a + b) + [last.value];
      }
    }
  }

  /** All files can be read exactly when reading them in order succeeds,
      and then the maps are theirs, in order. */
  lemma {:induction false} ReadAllReadsEach(fs: FileSystem, paths: seq<string>)
    ensures ReadAll(fs, paths).Ok? <==> forall j :: 0 <= j < |paths| ==> ReadResult(Open(fs, paths[j])).Ok?
    ensures ReadAll(fs, paths).Ok? ==>
              forall j :: 0 <= j < |paths| ==> ReadResult(Open(fs, paths[j])) == Ok(ReadAll(fs, paths).value[j])
  {
    if paths != [] {
      var n := |paths| - 1;
      var init := paths[..n];
      ReadAllReadsEach(fs, init);
      assert forall j :: 0 <= j < n ==> init[j] == paths[j];
    }
  }

  /** The error of the merge is that of the first file that cannot be read. */
  lemma {:induction false} ReadAllFirstError(fs: FileSystem, paths: seq<string>, j: nat)
    requires j < |paths| && ReadResult(Open(fs, paths[j])).Err?
    requires forall i :: 0 <= i < j ==> ReadResult(Open(fs, paths[i])).Ok?
    ensures ReadAll(fs, paths) == Err(ReadResult(Open(fs, paths[j])).error)
  {
    var prefix := paths[..j];
    forall i | 0 <= i < j ensures ReadResult(Open(fs, prefix[i])).Ok? {
      assert prefix[i] == paths[i];
    }
    ReadAllReadsEach(fs, prefix);
    ReadAllNext(fs, paths, j);
    ReadAllStopsAtError(fs, paths, j + 1);
  }

  /** A key is merged exactly when some file's map holds it. */
  lemma {:induction false} OverlayKeys(envs: seq<Env>, key: string)
    ensures key in Overlay(envs) <==> exists j :: 0 <= j < |envs| && key in envs[j]
  {
    if envs != [] {
      var n := |envs| - 1;
      var init := envs[..n];
      OverlayKeys(init, key);
      if key in Overlay(init) {
        var j :| 0 <= j < n && key in init[j];
        assert envs[j] == init[j];
      }
      if exists j :: 0 <= j < |envs| && key in envs[j] {
        var j :| 0 <= j < |envs| && key in envs[j];
        if j < n {
          assert init[j] == envs[j];
        }
      }
    }
  }

  /** A merged key takes its value from the last map that holds it. */
  lemma {:induction false} OverlayLastWins(envs: seq<Env>, j: nat, key: string)
    requires j < |envs| && key in envs[j]
    requires forall i :: j < i < |envs| ==> key !in envs[i]
    ensures key in Overlay(envs) && Overlay(envs)[key] == envs[j][key]
  {
    var n := |envs| - 1;
    if j < n {
      var init := envs[..n];
      assert init[j] == envs[j];
      forall i | j < i < n ensures key !in init[i] {
        assert init[i] == envs[i];
      }
      OverlayLastWins(init, j, key);
    }
  }

  /** Overlaying `a + b` lays the overlay of `b` over that of `a`. */
  lemma {:induction false} OverlayAppend(a: seq<Env>, b: seq<Env>)
    ensures Overlay(a + b) == Overlay(a) + Overlay(b)
  {
    if b == [] {
      assert a + b == a;
    } else {
      var n := |b| - 1;
      assert (a + b)[..|a + b| - 1] == a + b[..n];
      assert (a + b)[|a + b| - 1] == b[n];
      OverlayAppend(a, b[..n]);
    }
  }

  /** Overlaying the same maps a second time changes nothing. */
  lemma OverlayTwice(envs: seq<Env>)
    ensures Overlay(envs + envs) == Overlay(envs)
  {
    OverlayAppend(envs, envs);
    var m := Overlay(envs);
    assert m + m == m;
  }

  /** Merging the file list twice in a row (A, A) gives the same result as
      merging it once, the same error included. */
  lemma MergeTwice(fs: FileSystem, paths: seq<string>)
    ensures Merge(fs, paths + paths) == Merge(fs, paths)
  {
    ReadAllAppend(fs, paths, paths);
    if ReadAll(fs, paths).Ok? {
      OverlayTwice(ReadAll(fs, paths).value);
    }
  }

  /** The file at `path` can be read and defines `key`. */
  predicate FileDefines(fs: FileSystem, path: string, key: string) {
    ReadResult(Open(fs, path)).Ok? && key in ReadResult(Open(fs, path)).value
  }

  /** The merged key set is the union of the files' key sets. */
  lemma MergedKeys(fs: FileSystem, paths: seq<string>, key: string)
    requires Merge(fs, paths).Ok?
    ensures key in Merge(fs, paths).value <==> exists j :: 0 <= j < |paths| && FileDefines(fs, paths[j], key)
  {
    var envs := ReadAll(fs, paths).value;
    ReadAllReadsEach(fs, paths);
    OverlayKeys(envs, key);
    if key in Merge(fs, paths).value {
      var j :| 0 <= j < |envs| && key in envs[j];
      assert FileDefines(fs, paths[j], key);
    }
  }

  /** A merged key has the value of the last file that defines it. */
  lemma MergeLastFileWins(fs: FileSystem, paths: seq<string>, j: nat, key: string)
    requires Merge(fs, paths).Ok?
    requires j < |paths| && FileDefines(fs, paths[j], key)
    requires forall i :: j < i < |paths| ==> !FileDefines(fs, paths[i], key)
    ensures key in Merge(fs, paths).value
    ensures Merge(fs, paths).value[key] == ReadResult(Open(fs, paths[j])).value[key]
  {
    var envs := ReadAll(fs, paths).value;
    ReadAllReadsEach(fs, paths);
    forall i | j < i < |envs| ensures key !in envs[i] {
      assert !FileDefines(fs, paths[i], key);
    }
    OverlayLastWins(envs, j, key);
  }

  /** The line written for a stored entry reads back as that entry. */
  lemma ParseRecord(key: string, value: string)
    requires ValidEntry(key, value)
    ensures ParseLine(Record(key, value)) == Some((key, value))
  {
    var line := Record(key, value);
    assert line[0] == (if key == [] then '=' else key[0]);
    assert line[|line| - 1] == (if value == [] then '=' else value[|value| - 1]);
    TrimSpaceOfTrimmed(line);
    ParseLineSplits(line, key, value);
    TrimSpaceOfTrimmed(key);
    TrimSpaceOfTrimmed(value);
  }

  /** The record texts for `keys`, in that order. */
  function Records(env: Env, keys: seq<string>): (lines: seq<string>)
    requires forall i :: 0 <= i < |keys| ==> keys[i] in env
    ensures |lines| == |keys|
    ensures forall i :: 0 <= i < |keys| ==> lines[i] == Record(keys[i], env[keys[i]])
  {
    if keys == [] then []
    else
      var n := |keys| - 1;
      Records(env, keys[..n]) + [Record(keys[n], env[keys[n]])]
  }

  /** Reading the records of some keys of a valid map back, in any order,
      gives those keys with their values. */
  lemma {:induction false} ReadBack(env: Env, keys: seq<string>)
    requires ValidEnv(env)
    requires forall i :: 0 <= i < |keys| ==> keys[i] in env
    ensures ParseLines(Records(env, keys)) == map k | k in keys :: env[k]
  {
    if keys != [] {
      var n := |keys| - 1;
      var init := keys[..n];
      var lines := Records(env, keys);
      ReadBack(env, init);
      assert lines[..n] == Records(env, init);
      ParseRecord(keys[n], env[keys[n]]);
      StepStores(ParseLines(lines[..n]), lines[n], keys[n], env[keys[n]]);
      RestrictSnoc(env, keys);
    }
  }

  /** The entries for `keys` are those for all but the last key, plus the last. */
  lemma RestrictSnoc(env: Env, keys: seq<string>)
    requires keys != [] && forall i :: 0 <= i < |keys| ==> keys[i] in env
    ensures var n := |keys| - 1;
            (map k | k in keys[..n] :: env[k])[keys[n] := env[keys[n]]] == map k | k in keys :: env[k]
  {
    var n := |keys| - 1;
    assert forall k :: k in keys <==> k in keys[..n] || k == keys[n];
  }

  /** The merge of files keeps every entry valid. */
  lemma {:induction false} OverlayValid(envs: seq<Env>)
    requires forall j :: 0 <= j < |envs| ==> ValidEnv(envs[j])
    ensures ValidEnv(Overlay(envs))
  {
    if envs != [] {
      var n := |envs| - 1;
      var init := envs[..n];
      assert forall j :: 0 <= j < n ==> init[j] == envs[j];
      OverlayValid(init);
    }
  }

  /** Reading back the records of all keys of a valid map, in any order,
      gives that map. */
  lemma ReadBackAll(env: Env, keys: seq<string>)
    requires ValidEnv(env)
    requires forall i :: 0 <= i < |keys| ==> keys[i] in env
    requires forall k :: k in env ==> k in keys
    ensures ParseLines(Records(env, keys)) == env
  {
    var restricted := map k | k in keys :: env[k];
    assert restricted == env by {
      assert restricted.Keys == env.Keys;
    }
    assert ParseLines(Records(env, keys)) == restricted by {
      ReadBack(env, keys);
    }
  }

  /** A complete write of a merged map reads back, line by line and in
      whatever order it was written, as that same map. */
  lemma OutputReadsBack(fs: FileSystem, inputFiles: seq<string>, outputFile: string, sink: Sink,
                        keys: seq<string>, err: Option<IoError>, output: Output)
    requires Merge(fs, inputFiles).Ok?
    requires WriteOutcome(Merge(fs, inputFiles).value, outputFile, sink, keys, err, output)
    requires sink.createError == None && err == None
    ensures output.Created? && |output.written| == |keys|
    ensures var env := Merge(fs, inputFiles).value;
            && (forall i :: 0 <= i < |keys| ==> output.written[i] == Records(env, keys)[i] + "\n")
            && ParseLines(Records(env, keys)) == env
            && ParseLines(output.written) == env
  {
    var env := Merge(fs, inputFiles).value;
    var written := output.written;
    assert WrittenInOrder(env, keys, written);
    var records := Records(env, keys);
    assert ParseLines(records) == env by {
      assert forall k :: k in env ==> k in keys;
      ReadBackAll(env, keys);
    }
    assert ParseLines(written) == ParseLines(records) by {
      forall i | 0 <= i < |keys|
        ensures ParseLine(written[i]) == ParseLine(records[i])
      {
        FormatLineParses(keys[i], env[keys[i]]);
      }
      ParseLinesAlike(written, records);
    }
  }

  /** Merging two readable files lays the second file's map over the
      first's: disjoint keys give the union, a shared key the second value. */
  lemma MergeTwoFiles(fs: FileSystem, a: string, b: string)
    requires ReadResult(Open(fs, a)).Ok? && ReadResult(Open(fs, b)).Ok?
    ensures Merge(fs, [a, b]) == Ok(ReadResult(Open(fs, a)).value + ReadResult(Open(fs, b)).value)
  {
    var first, second := ReadResult(Open(fs, a)).value, ReadResult(Open(fs, b)).value;
    var paths := [a, b];
    assert ReadAll(fs, paths) == Ok([first, second]) by {
      ReadAllReadsEach(fs, paths);
      assert paths[0] == a && paths[1] == b;
      var envs := ReadAll(fs, paths).value;
      assert envs[0] == first && envs[1] == second;
      assert envs == [first, second];
    }
    assert Overlay([first, second]) == first + second by {
      assert [first, second][..1] == [first] && [first][..0] == [];
      assert Overlay([first]) == map[] + first == first;
    }
  }

  /** Two lines, each stored or skipped in turn. */
  lemma ParseTwoLines(x: string, y: string)
    ensures ParseLines([x, y]) == Step(Step(map[], x), y)
  {
    assert [x, y][..1] == [x] && [x][..0] == [];
    assert ParseLines([x]) == Step(map[], x);
  }

  /** Three lines, each stored or skipped in turn. */
  lemma ParseThreeLines(x: string, y: string, z: string)
    ensures ParseLines([x, y, z]) == Step(Step(Step(map[], x), y), z)
  {
    assert [x, y, z][..2] == [x, y];
    ParseTwoLines(x, y);
  }

  /** A line whose trimmed text starts with `#` is skipped. */
  lemma StepSkipsComment(env: Env, comment: string)
    requires TrimSpace(comment) != [] && TrimSpace(comment)[0] == '#'
    ensures Step(env, comment) == env
  {
  }

  /** The first file of the scenario below: `foo=v1`, `bar=v2`. */
  lemma OverrideFirstFile(foo: string, bar: string, v1: string, v2: string)
    requires ValidEntry(foo, v1) && ValidEntry(bar, v2)
    ensures ParseLines([Record(foo, v1), Record(bar, v2)]) == map[foo := v1, bar := v2]
  {
    ParseTwoLines(Record(foo, v1), Record(bar, v2));
    ParseRecord(foo, v1);
    StepStores(map[], Record(foo, v1), foo, v1);
    ParseRecord(bar, v2);
    StepStores(map[foo := v1], Record(bar, v2), bar, v2);
  }

  /** The second file of the scenario below: `bar=v3`, a comment, `baz=v4`. */
  lemma OverrideSecondFile(comment: string, bar: string, baz: string, v3: string, v4: string)
    requires ValidEntry(bar, v3) && ValidEntry(baz, v4)
    requires TrimSpace(comment) != [] && TrimSpace(comment)[0] == '#'
    ensures ParseLines([Record(bar, v3), comment, Record(baz, v4)]) == map[bar := v3, baz := v4]
  {
    ParseThreeLines(Record(bar, v3), comment, Record(baz, v4));
    ParseRecord(bar, v3);
    StepStores(map[], Record(bar, v3), bar, v3);
    StepSkipsComment(map[bar := v3], comment);
    ParseRecord(baz, v4);
    StepStores(map[bar := v3], Record(baz, v4), baz, v4);
  }

  /** The map arithmetic of the scenario below. */
  lemma OverrideMaps(foo: string, bar: string, baz: string, v1: string, v2: string, v3: string, v4: string)
    ensures map[foo := v1, bar := v2] + map[bar := v3, baz := v4] == map[foo := v1, bar := v3, baz := v4]
  {
  }

  /** Two files where the second overrides one key of the first, adds a new
      one and holds a comment: `foo=v1`, `bar=v2`, then `bar=v3`, a comment,
      `baz=v4`. The merge holds `foo=v1`, `bar=v3` and `baz=v4`. */
  lemma MergeOverride(fs: FileSystem, a: string, b: string, comment: string,
                      foo: string, bar: string, baz: string,
                      v1: string, v2: string, v3: string, v4: string)
    requires a != b
    requires fs == map[a := Lines([Record(foo, v1), Record(bar, v2)]),
                       b := Lines([Record(bar, v3), comment, Record(baz, v4)])]
    requires ValidEntry(foo, v1) && ValidEntry(bar, v2) && ValidEntry(bar, v3) && ValidEntry(baz, v4)
    requires TrimSpace(comment) != [] && TrimSpace(comment)[0] == '#'
    ensures Merge(fs, [a, b]) == Ok(map[foo := v1, bar := v3, baz := v4])
  {
    var first, second := map[foo := v1, bar := v2], map[bar := v3, baz := v4];
    assert ReadResult(Open(fs, a)) == Ok(first) by {
      OverrideFirstFile(foo, bar, v1, v2);
    }
    assert ReadResult(Open(fs, b)) == Ok(second) by {
      OverrideSecondFile(comment, bar, baz, v3, v4);
    }
    MergeTwoFiles(fs, a, b);
    OverrideMaps(foo, bar, baz, v1, v2, v3, v4);
  }

  /** The same with the files `FOO=1`, `BAR=2` and `BAR=3`, `#comment`, `BAZ=4`. */
  lemma MergeExample()
    ensures var fs := map["a.env" := Lines(["FOO=1", "BAR=2"]),
                          "b.env" := Lines(["BAR=3", "#comment", "BAZ=4"])];
            Merge(fs, ["a.env", "b.env"]) == Ok(map["FOO" := "1", "BAR" := "3", "BAZ" := "4"])
  {
    var fs := map["a.env" := Lines(["FOO=1", "BAR=2"]),
                  "b.env" := Lines(["BAR=3", "#comment", "BAZ=4"])];
    assert Record("FOO", "1") == "FOO=1" && Record("BAR", "2") == "BAR=2";
    assert Record("BAR", "3") == "BAR=3" && Record("BAZ", "4") == "BAZ=4";
    assert fs == map["a.env" := Lines([Record("FOO", "1"), Record("BAR", "2")]),
                     "b.env" := Lines([Record("BAR", "3"), "#comment", Record("BAZ", "4")])];
    assert ValidEntry("FOO", "1") && ValidEntry("BAR", "2");
    assert ValidEntry("BAR", "3") && ValidEntry("BAZ", "4");
    assert TrimSpace("#comment") == "#comment" by {
      TrimSpaceOfTrimmed("#comment");
    }
    MergeOverride(fs, "a.env", "b.env", "#comment", "FOO", "BAR", "BAZ", "1", "2", "3", "4");
  }
}
