/** `EnvLoader.load_env`: the loop that reads `.env` lines into the process
    environment (`os.environ`). The file itself is not opened here: the
    loader is given the sequence of lines the file iterator would yield.

    The loop body does two things: it reads a line (`ClassifyLine`) and then
    acts on what it read (`Step`). The loop's meaning is stated over the
    sequence of classified lines (`LoadKinds`), and `LoadLines` composes the
    two. */
module EnvLoader {

  import opened Wrappers
  import opened PyText

  /** What one raw line of the file amounts to. */
  datatype LineKind =
    | Blank                                   // empty once stripped
    | Comment                                 // stripped text starts with '#'
    | Assignment(key: string, value: string)
    | NoSeparator(line: string)               // `key, value = line.split('=', 1)` raises

  /** How a stripped line is read: skipped when empty or a comment,
      otherwise split at the first '=' with both halves stripped. */
  function ClassifyStripped(line: string): (k: LineKind)
    ensures k.Blank? <==> line == []
    ensures k.Comment? <==> line != [] && line[0] == '#'
    ensures k.NoSeparator? <==> line != [] && line[0] != '#' && '=' !in line
    ensures k.NoSeparator? ==> k.line == line
  {
    if line == [] then Blank
    else if line[0] == '#' then Comment
    else match SplitFirst(line, '=')
      case None => NoSeparator(line)
      case Some((before, after)) => Assignment(Strip(before), Strip(after))
  }

  /** How one raw line of the file is read: `line.strip()` first. */
  function ClassifyLine(raw: string): (k: LineKind)
    ensures k.Blank? <==> Strip(raw) == []
    ensures k.Comment? <==> Strip(raw) != [] && Strip(raw)[0] == '#'
    ensures k.NoSeparator? <==> Strip(raw) != [] && Strip(raw)[0] != '#' && '=' !in Strip(raw)
  {
    ClassifyStripped(Strip(raw))
  }

  /** Every line of `lines`, read. */
  function ClassifyAll(lines: seq<string>): (kinds: seq<LineKind>)
    ensures |kinds| == |lines|
  {
    if lines == [] then [] else ClassifyAll(lines[..|lines| - 1]) + [ClassifyLine(lines[|lines| - 1])]
  }

  lemma {:induction false} ClassifyAllAt(lines: seq<string>, j: nat)
    requires j < |lines|
    ensures ClassifyAll(lines)[j] == ClassifyLine(lines[j])
  {
    if j < |lines| - 1 {
      ClassifyAllAt(lines[..|lines| - 1], j);
    }
  }

  /** Whether the process environment takes the pair: `os.environ[key] = value`
      goes through putenv/setenv, which refuse an empty name and a NUL
      character in the name or the value (Python raises ValueError or OSError
      before the entry is stored). A '=' in the name cannot arise here, as the
      name is cut at the first '='. */
  predicate Settable(key: string, value: string) {
    key != [] && '\0' !in key && '\0' !in value
  }

  /** The exception that aborts the load. */
  datatype LoadError =
    | MalformedLine(line: string)                 // no '=' in a non-blank, non-comment line
    | IllegalVariable(key: string, value: string) // refused by the process environment

  /** The environment as it stands when the loop ends, and the exception, if
      any, that ended it. Lines before the failing one have already been
      written: os.environ is updated in place. */
  datatype LoadOutcome = LoadOutcome(env: map<string, string>, error: Option<LoadError>)

  /** A line the loop gets past without raising. */
  predicate Accepted(kind: LineKind) {
    match kind
    case NoSeparator(_) => false
    case Assignment(key, value) => Settable(key, value)
    case _ => true
  }

  /** Whether a line writes `key`. */
  predicate Assigns(kind: LineKind, key: string) {
    kind.Assignment? && kind.key == key
  }

  /** One iteration of the loop on `env`, for a line read as `kind`. */
  function Step(env: map<string, string>, kind: LineKind): (o: LoadOutcome)
    ensures o.error.None? <==> Accepted(kind)
    ensures o.error.Some? ==> o.env == env
    ensures kind.Blank? || kind.Comment? ==> o == LoadOutcome(env, None)
    ensures Accepted(kind) && kind.Assignment? ==> o.env == env[kind.key := kind.value]
  {
    match kind
    case Blank => LoadOutcome(env, None)
    case Comment => LoadOutcome(env, None)
    case NoSeparator(line) => LoadOutcome(env, Some(MalformedLine(line)))
    case Assignment(key, value) =>
      if Settable(key, value) then LoadOutcome(env[key := value], None)
      else LoadOutcome(env, Some(IllegalVariable(key, value)))
  }

  /** The whole loop over lines read as `kinds`, starting from `env`: stop at
      the first line that raises, keeping what earlier lines wrote. */
  function LoadKinds(env: map<string, string>, kinds: seq<LineKind>): (o: LoadOutcome)
    ensures env.Keys <= o.env.Keys
  {
    if kinds == [] then LoadOutcome(env, None)
    else
      var o := LoadKinds(env, kinds[..|kinds| - 1]);
      if o.error.Some? then o else Step(o.env, kinds[|kinds| - 1])
  }

  /** `load_env` on the lines of a file, starting from the environment `env`. */
  function LoadLines(env: map<string, string>, lines: seq<string>): (o: LoadOutcome)
    ensures env.Keys <= o.env.Keys
  {
    LoadKinds(env, ClassifyAll(lines))
  }

  /** Stands for `os.environ`, the process-wide map the loader writes into. */
  class Environ {
    var vars: map<string, string>

    constructor (initial: map<string, string>)
      ensures vars == initial
    {
      vars := initial;
    }
  }

  /** One pass of the loop body on the raw line `raw`: strip it; unless it
      is empty or a comment, split it at the first '=' and store the stripped
      key and value. Returns the exception the line raises, if any. */
  method ApplyLine(environ: Environ, raw: string) returns (error: Option<LoadError>)
    modifies environ
    ensures Step(old(environ.vars), ClassifyLine(raw)) == LoadOutcome(environ.vars, error)
  {
    var line := Strip(raw);
    error := None;
    if line != [] && line[0] != '#' {
      var parts := SplitFirst(line, '=');
      if parts.None? {
        error := Some(MalformedLine(line));
        return;
      }
      var key, value := Strip(parts.value.0), Strip(parts.value.1);
      if !Settable(key, value) {
        error := Some(IllegalVariable(key, value));
        return;
      }
      environ.vars := environ.vars[key := value];
    }
  }

  /** `EnvLoader.load_env` after the file is opened: the loop body on each
      line in turn, stopping at the first exception. Returns that exception,
      if any; `environ` keeps whatever was written before it. */
  method LoadEnv(environ: Environ, lines: seq<string>) returns (error: Option<LoadError>)
    modifies environ
    ensures LoadLines(old(environ.vars), lines) == LoadOutcome(environ.vars, error)
  {
    ghost var kinds := ClassifyAll(lines);
    var i := 0;
    while i < |lines|
      invariant 0 <= i <= |lines|
      invariant LoadKinds(old(environ.vars), kinds[..i]) == LoadOutcome(environ.vars, None)
    {
      ClassifyAllAt(lines, i);
      LoadOneMore(old(environ.vars), kinds, i);
      error := ApplyLine(environ, lines[i]);
      if error.Some? {
        LoadStopsAt(old(environ.vars), kinds, i);
        return;
      }
      i := i + 1;
    }
    assert kinds[..i] == kinds;
    error := None;
  }

  /** Loading one more line: stop if the earlier lines raised, otherwise
      take one step. */
  lemma LoadOneMore(env: map<string, string>, kinds: seq<LineKind>, i: nat)
    requires i < |kinds|
    ensures LoadKinds(env, kinds[..i + 1]) ==
              var o := LoadKinds(env, kinds[..i]);
              if o.error.Some? then o else Step(o.env, kinds[i])
  {
    assert kinds[..i + 1][..i] == kinds[..i];
  }

  /** Once a line raises, the lines after it are not read. */
  lemma LoadStopsAt(env: map<string, string>, kinds: seq<LineKind>, i: nat)
    requires i < |kinds| && LoadKinds(env, kinds[..i + 1]).error.Some?
    ensures LoadKinds(env, kinds) == LoadKinds(env, kinds[..i + 1])
  {
    var done, rest := kinds[..i + 1], kinds[i + 1..];
    LoadConcat(env, done, rest);
    assert done + rest == kinds;
  }

  /** Loading `a + b` is loading `a`, then, unless that raised, loading `b`
      into what `a` left. */
  lemma {:induction false} LoadConcat(env: map<string, string>, a: seq<LineKind>, b: seq<LineKind>)
    ensures LoadKinds(env, a + b) ==
              var o := LoadKinds(env, a);
              if o.error.Some? then o else LoadKinds(o.env, b)
    decreases |b|
  {
    if b == [] {
      assert a + b == a;
    } else {
      var b' := b[..|b| - 1];
      assert (a + b)[..|a + b| - 1] == a + b';
      assert (a + b)[|a + b| - 1] == b[|b| - 1];
      LoadConcat(env, a, b');
    }
  }

  /** The load goes through exactly when every line is accepted. */
  lemma {:induction false} LoadSucceedsIffAllAccepted(env: map<string, string>, kinds: seq<LineKind>)
    ensures LoadKinds(env, kinds).error.None? <==> forall j :: 0 <= j < |kinds| ==> Accepted(kinds[j])
  {
    if kinds != [] {
      var earlier := kinds[..|kinds| - 1];
      LoadSucceedsIffAllAccepted(env, earlier);
      assert forall j :: 0 <= j < |earlier| ==> earlier[j] == kinds[j];
    }
  }

  /** A blank or comment line can be dropped from the file without changing
      the outcome. */
  lemma IgnoredLineIsNoOp(env: map<string, string>, pre: seq<LineKind>, kind: LineKind, post: seq<LineKind>)
    requires kind.Blank? || kind.Comment?
    ensures LoadKinds(env, pre + [kind] + post) == LoadKinds(env, pre + post)
  {
    LoadConcat(env, pre + [kind], post);
    LoadConcat(env, pre, [kind]);
    LoadConcat(env, pre, post);
    assert [kind][..0] == [];
  }

  /** When the load goes through, a key ends up with the value of its LAST
      assignment. */
  lemma {:induction false} LastAssignmentWins(env: map<string, string>, kinds: seq<LineKind>, i: nat, key: string)
    requires LoadKinds(env, kinds).error.None?
    requires i < |kinds| && Assigns(kinds[i], key)
    requires forall j :: i < j < |kinds| ==> !Assigns(kinds[j], key)
    ensures key in LoadKinds(env, kinds).env
    ensures LoadKinds(env, kinds).env[key] == kinds[i].value
  {
    var earlier := kinds[..|kinds| - 1];
    if i < |kinds| - 1 {
      assert forall j :: i < j < |earlier| ==> earlier[j] == kinds[j];
      LastAssignmentWins(env, earlier, i, key);
    }
  }

  /** A key that no line assigns keeps its prior state, present with the same
      value or absent, whether or not the load goes through. */
  lemma {:induction false} UnassignedKeyUnchanged(env: map<string, string>, kinds: seq<LineKind>, key: string)
    requires forall j :: 0 <= j < |kinds| ==> !Assigns(kinds[j], key)
    ensures key in LoadKinds(env, kinds).env <==> key in env
    ensures key in env ==> LoadKinds(env, kinds).env[key] == env[key]
  {
    if kinds != [] {
      var earlier := kinds[..|kinds| - 1];
      assert forall j :: 0 <= j < |earlier| ==> earlier[j] == kinds[j];
      UnassignedKeyUnchanged(env, earlier, key);
    }
  }

  /** A rejected line aborts the load with that line's error; every line
      before it has already been written into the environment, and no line
      after it is read. */
  lemma FailureKeepsEarlierWrites(env: map<string, string>, kinds: seq<LineKind>, i: nat)
    requires i < |kinds| && !Accepted(kinds[i])
    requires forall j :: 0 <= j < i ==> Accepted(kinds[j])
    ensures LoadKinds(env, kinds).env == LoadKinds(env, kinds[..i]).env
    ensures LoadKinds(env, kinds).error == Step(LoadKinds(env, kinds[..i]).env, kinds[i]).error
    ensures kinds[i].NoSeparator? ==> LoadKinds(env, kinds).error == Some(MalformedLine(kinds[i].line))
  {
    assert kinds == kinds[..i + 1] + kinds[i + 1..];
    assert kinds[..i + 1][..i] == kinds[..i];
    LoadSucceedsIffAllAccepted(env, kinds[..i]);
    assert forall j :: 0 <= j < i ==> kinds[..i][j] == kinds[j];
    LoadConcat(env, kinds[..i + 1], kinds[i + 1..]);
  }

  /** A pair the process environment refuses, an empty name or a NUL
      character, raises and writes nothing. */
  lemma RefusedVariableRaises(env: map<string, string>, key: string, value: string)
    requires key == [] || '\0' in key || '\0' in value
    ensures Step(env, Assignment(key, value)) == LoadOutcome(env, Some(IllegalVariable(key, value)))
  {
  }

  /** A line is split at its FIRST '=': the key is the stripped text before
      it and the value the stripped text after it, later '=' included. */
  lemma AssignmentSplitsAtFirstEquals(raw: string, p: nat)
    requires Strip(raw) != [] && Strip(raw)[0] != '#'
    requires p < |Strip(raw)| && Strip(raw)[p] == '=' && '=' !in Strip(raw)[..p]
    ensures ClassifyLine(raw) == Assignment(Strip(Strip(raw)[..p]), Strip(Strip(raw)[p + 1..]))
  {
    SplitFirstAt(Strip(raw), '=', p);
  }

  /** A line with no '=' that is neither blank nor a comment is rejected,
      carrying its stripped text. */
  lemma MissingSeparatorRejected(raw: string)
    requires Strip(raw) != [] && Strip(raw)[0] != '#' && '=' !in Strip(raw)
    ensures ClassifyLine(raw) == NoSeparator(Strip(raw)) && !Accepted(ClassifyLine(raw))
  {
  }
}
