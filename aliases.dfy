/** The alias loader `readAliases`: every line of the alias file that holds
    exactly one `=` defines the name on its left as the command on its right,
    both with surrounding white space removed; a later line overrides an
    earlier one with the same name. */
module Aliases {
  import opened Text

  datatype Option<T> = None | Some(value: T)

  datatype Result<T, E> = Ok(value: T) | Err(error: E)

  /** The error an operating-system call reports; only its text matters here. */
  datatype IoError = IoError(text: string)

  /** One accepted line of the alias file. */
  datatype Entry = Entry(name: string, command: string)

  /** What the file system holds at the alias-file path, as the loader sees it.
      `Contents` gives the lines the scanner delivers, and the error it stops on, if any;
      `Missing` is an open that reports that the file does not exist, with the error
      creating it gives, if any; `Unreadable` is an open that fails with any other
      error, whether or not the file exists. */
  datatype FileState =
    | Contents(lines: seq<string>, scanError: Option<IoError>)
    | Missing(createError: Option<IoError>)
    | Unreadable(openError: IoError)

  /** A name or command as it can appear in the map: no `=`, no surrounding white space. */
  predicate WellFormed(s: string) {
    '=' !in s && Trimmed(s)
  }

  /** The entry a line defines, if it defines one. */
  function ParseLine(line: string): Option<Entry>
  {
    var parts := Split(line, '=');
    if |parts| == 2 then
      Some(Entry(TrimSpace(parts[0]), TrimSpace(parts[1])))
    else
      None
  }

  /** A line is accepted exactly when it holds one `=`; its name is then the
      trimmed text before the `=` and its command the trimmed text after it. */
  lemma ParseLineAccepts(line: string)
    ensures ParseLine(line).Some? <==> Count(line, '=') == 1
    ensures ParseLine(line).Some? ==>
      var i := Find(line, '=');
      ParseLine(line).value == Entry(TrimSpace(line[..i]), TrimSpace(line[i + 1..]))
  {
    SplitPieces(line, '=');
    if Count(line, '=') == 1 {
      SplitOnce(line, '=');
    }
  }

  /** The name and the command of an accepted line are well formed. */
  lemma ParseLineWellFormed(line: string)
    requires ParseLine(line).Some?
    ensures WellFormed(ParseLine(line).value.name) && WellFormed(ParseLine(line).value.command)
  {
    var parts := Split(line, '=');
    SplitPieces(line, '=');
    TrimSpaceSpec(parts[0]);
    TrimSpaceSpec(parts[1]);
    TrimSpaceSubset(parts[0], '=');
    TrimSpaceSubset(parts[1], '=');
  }

  /** The map after one more line has been read. */
  function Step(m: map<string, string>, line: string): map<string, string>
  {
    match ParseLine(line)
    case Some(e) => m[e.name := e.command]
    case None => m
  }

  /** The map that reading `lines` in order builds, starting from the empty map. */
  function Parse(lines: seq<string>): map<string, string>
  {
    if lines == [] then map[]
    else Step(Parse(lines[..|lines| - 1]), lines[|lines| - 1])
  }

  /** Line `i` of `lines` defines `name`. */
  predicate Defines(lines: seq<string>, i: int, name: string) {
    0 <= i < |lines| && ParseLine(lines[i]).Some? && ParseLine(lines[i]).value.name == name
  }

  /** Line `i` is the last line of `lines` that defines `name`. */
  predicate LastDefines(lines: seq<string>, i: int, name: string) {
    Defines(lines, i, name) && forall j :: i < j < |lines| ==> !Defines(lines, j, name)
  }

  /** The lines before the last define a name exactly where the whole does. */
  lemma DefinesPrefix(lines: seq<string>, k: int, name: string)
    requires 0 <= k < |lines| - 1
    ensures Defines(lines[..|lines| - 1], k, name) == Defines(lines, k, name)
  {
  }

  /** The index of the last line that defines `name`, or -1 when none does. */
  function LastDefinition(lines: seq<string>, name: string): (i: int)
    ensures -1 <= i < |lines|
    ensures i >= 0 ==> LastDefines(lines, i, name)
    ensures i == -1 ==> forall k :: !Defines(lines, k, name)
  {
    if lines == [] then -1
    else if Defines(lines, |lines| - 1, name) then |lines| - 1
    else
      var i := LastDefinition(lines[..|lines| - 1], name);
      forall k | 0 <= k < |lines| - 1
        ensures Defines(lines[..|lines| - 1], k, name) == Defines(lines, k, name)
      {
        DefinesPrefix(lines, k, name);
      }
      i
  }

  /** The loader: a file that opening reports as not existing is created and read
      as empty; an opened one is read line by line into the map; any other error of
      the file system is passed on. */
  function Load(file: FileState): Result<map<string, string>, IoError>
  {
    match file
    case Missing(None) => Ok(map[])
    case Missing(Some(e)) => Err(e)
    case Unreadable(e) => Err(e)
    case Contents(lines, None) => Ok(Parse(lines))
    case Contents(_, Some(e)) => Err(e)
  }

  /** The file system after loading: a file reported as not existing that could be
      created is now empty. */
  function AfterLoad(file: FileState): FileState
  {
    if file == Missing(None) then Contents([], None) else file
  }

  /** The file can be loaded without error. */
  predicate Readable(file: FileState) {
    file == Missing(None) || (file.Contents? && file.scanError.None?)
  }

  /** The lines of a readable file (none for a file that was missing). */
  function LinesOf(file: FileState): seq<string>
  {
    if file.Contents? then file.lines else []
  }

  /** `readAliases`: the loop fills the map one line at a time. */
  method ReadAliases(file: FileState) returns (r: Result<map<string, string>, IoError>, after: FileState)
    ensures r == Load(file)
    ensures after == AfterLoad(file)
  {
    after := file;
    match file {
      case Missing(createError) =>
        if createError.Some? {
          return Err(createError.value), after;
        }
        return Ok(map[]), Contents([], None);
      case Unreadable(e) =>
        return Err(e), after;
      case Contents(lines, scanError) =>
        var m: map<string, string> := map[];
        var i := 0;
        while i < |lines|
          invariant 0 <= i <= |lines|
          invariant m == Parse(lines[..i])
        {
          var line := lines[i];
          var parts := Split(line, '=');
          if |parts| == 2 {
            m := m[TrimSpace(parts[0]) := TrimSpace(parts[1])];
          }
          assert lines[..i + 1][..i] == lines[..i];
          i := i + 1;
        }
        assert lines[..|lines|] == lines;
        if scanError.Some? {
          return Err(scanError.value), after;
        }
        return Ok(m), after;
    }
  }

  /** A line read after the union of `m1` and `m2` changes only what it would change in `m2`. */
  lemma StepUnion(m1: map<string, string>, m2: map<string, string>, line: string)
    ensures Step(m1 + m2, line) == m1 + Step(m2, line)
  {
  }

  /** Reading two runs of lines one after the other: the second run's entries
      override the first's. */
  lemma {:induction false} ParseAppend(a: seq<string>, b: seq<string>)
    ensures Parse(a + b) == Parse(a) + Parse(b)
  {
    if b == [] {
      assert a + b == a;
      assert Parse(a) + map[] == Parse(a);
    } else {
      var b' := b[..|b| - 1];
      var line := b[|b| - 1];
      assert (a + b)[..|a + b| - 1] == a + b';
      assert (a + b)[|a + b| - 1] == line;
      ParseAppend(a, b');
      StepUnion(Parse(a), Parse(b'), line);
    }
  }

  /** A line that does not hold exactly one `=` leaves the map as it was. */
  lemma ParseSkipsRejected(lines: seq<string>, line: string)
    requires Count(line, '=') != 1
    ensures Parse(lines + [line]) == Parse(lines)
  {
    ParseAppend(lines, [line]);
    ParseLineAccepts(line);
    assert [line][..0] == [];
  }

  /** Only rejected lines, or no lines at all, give the empty map: the same map
      that a missing alias file gives. */
  lemma {:induction false} ParseAllRejected(lines: seq<string>)
    requires forall k :: 0 <= k < |lines| ==> Count(lines[k], '=') != 1
    ensures Parse(lines) == map[]
    ensures Load(Contents(lines, None)) == Load(Missing(None))
  {
    if lines != [] {
      ParseLineAccepts(lines[|lines| - 1]);
      ParseAllRejected(lines[..|lines| - 1]);
    }
  }

  /** The names in the map are exactly the names that some line defines. */
  lemma {:induction false} ParseNames(lines: seq<string>, name: string)
    ensures name in Parse(lines) <==> exists i :: Defines(lines, i, name)
  {
    if lines != [] {
      var n := |lines| - 1;
      var init := lines[..n];
      ParseNames(init, name);
      assert Parse(lines) == Step(Parse(init), lines[n]);
      assert name in Parse(lines) <==> name in Parse(init) || Defines(lines, n, name);
      if name in Parse(init) {
        var i :| Defines(init, i, name);
        assert init[i] == lines[i];
        assert Defines(lines, i, name);
      }
      if exists i :: Defines(lines, i, name) {
        var i :| Defines(lines, i, name);
        if i < n {
          assert init[i] == lines[i];
          assert Defines(init, i, name);
        } else {
          assert i == n;
        }
        assert name in Parse(lines);
      }
    } else {
      assert Parse(lines) == map[];
    }
  }

  /** The command recorded for a name is the one on the last line that defines it. */
  lemma {:induction false} ParseLastWins(lines: seq<string>, i: int, name: string)
    requires LastDefines(lines, i, name)
    ensures name in Parse(lines) && Parse(lines)[name] == ParseLine(lines[i]).value.command
  {
    var n := |lines| - 1;
    var init := lines[..n];
    assert Parse(lines) == Step(Parse(init), lines[n]);
    if i < n {
      assert !Defines(lines, n, name);
      forall j | i < j < n
        ensures !Defines(init, j, name)
      {
        DefinesPrefix(lines, j, name);
      }
      DefinesPrefix(lines, i, name);
      ParseLastWins(init, i, name);
      StepOther(Parse(init), lines[n], name);
    }
  }

  /** A line that does not define `name` leaves its entry as it was. */
  lemma StepOther(m: map<string, string>, line: string, name: string)
    requires name in m
    requires ParseLine(line).Some? ==> ParseLine(line).value.name != name
    ensures name in Step(m, line) && Step(m, line)[name] == m[name]
  {
  }

  /** Every name and every command in the map is well formed. */
  lemma {:induction false} ParseWellFormed(lines: seq<string>)
    ensures forall name :: name in Parse(lines) ==> WellFormed(name) && WellFormed(Parse(lines)[name])
  {
    if lines != [] {
      var line := lines[|lines| - 1];
      ParseWellFormed(lines[..|lines| - 1]);
      if ParseLine(line).Some? {
        ParseLineWellFormed(line);
      }
    }
  }

  /** Loading never fails for a missing file that can be created, and loading
      again after it reads the same (empty) map. */
  lemma LoadAgain(file: FileState)
    requires Load(file).Ok?
    ensures Load(AfterLoad(file)) == Load(file)
    ensures AfterLoad(AfterLoad(file)) == AfterLoad(file)
  {
  }

  /** Loading succeeds exactly for readable files, with the map their lines build. */
  lemma LoadReadable(file: FileState)
    ensures Load(file).Ok? <==> Readable(file)
    ensures Readable(file) ==> Load(file) == Ok(Parse(LinesOf(file)))
  {
  }
}
