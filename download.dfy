/** A model of `download` in scripts/download_errors.py: decide from the
    cached and the remote Etag whether to fetch, remove the old shard files,
    route every line of the fetched report to the shard file of its key, close
    the shard files and only then record the new Etag in the sidecar file.

    The output directory is a value (`Disk`); the HTTP responses and the key
    extraction (`json.loads(line)[0]`) are parameters. `Download` returns the
    new directory together with the log of the file effects it performed, in
    order, so that their ordering can be stated. */
module Download {
  import opened Wrappers
  import opened LineChunker

  /** A path relative to the output directory. */
  type Path = string

  /** The suffix of every shard file, and of the files the cleanup removes. */
  const ShardSuffix: string := ".json"

  predicate IsShardName(p: Path) {
    |p| >= |ShardSuffix| && p[|p| - |ShardSuffix|..] == ShardSuffix
  }

  /** `'%s.json' % os.path.join(output_dir, key)`, relative to the output
      directory: the file is named after its key, so distinct keys get
      distinct files (ShardPathInjective). */
  function ShardPath(key: string): (p: Path)
    ensures IsShardName(p)
    ensures p[..|p| - |ShardSuffix|] == key
  {
    assert (key + ShardSuffix)[|key|..] == ShardSuffix;
    key + ShardSuffix
  }

  /** Two keys share a shard file only when they are the same key. */
  lemma ShardPathInjective(k1: string, k2: string)
    ensures ShardPath(k1) == ShardPath(k2) <==> k1 == k2
  {
    if ShardPath(k1) == ShardPath(k2) {
      var p := ShardPath(k1);
      assert k1 == p[..|p| - |ShardSuffix|] == k2;
    }
  }

  /** The sidecar `.errors` file as the first read sees it. */
  datatype Sidecar = Absent | Unreadable | Text(contents: string)

  /** The output directory: every file but the sidecar, and the sidecar. */
  datatype Disk = Disk(files: map<Path, seq<byte>>, sidecar: Sidecar)

  /** What the script takes from an HTTP response: the status, the `Etag`
      header when present, and the body as the chunks its reads return. */
  datatype Response = Response(status: int, etag: Option<string>, body: seq<seq<byte>>)

  /** The Python values the variable `etag` can hold. */
  datatype PyValue = PyInt(n: int) | PyStr(s: string)

  datatype Decision = Abort(status: int) | Skip | Fetch(etag: string)

  /** How a run ends: an HTTP status other than 200 (logged, normal return),
      `sys.exit(200)`, an exception while extracting the key of a line, or
      a completed update. */
  datatype Outcome = HttpError(status: int) | NotModified | ParseError(line: nat) | Updated

  /** The file effects of a run, in the order they happen. */
  datatype Effect =
    | Remove(path: Path)
    | Open(path: Path)
    | Write(path: Path, data: seq<byte>)
    | Close(path: Path)
    | WriteSidecar(etag: string)

  /** `fp.readline()` on a text file: the text up to and including the first
      newline, or all of it when there is none. */
  function ReadLine(text: string): (r: string)
    ensures r <= text
    ensures '\n' !in text ==> r == text
    ensures '\n' in text ==> |r| > 0 && r[|r| - 1] == '\n' && '\n' !in r[..|r| - 1]
  {
    if text == [] then []
    else if text[0] == '\n' then ['\n']
    else
      var r := [text[0]] + ReadLine(text[1..]);
      assert text == [text[0]] + text[1..];
      assert |r| > 1 ==> r[..|r| - 1] == [text[0]] + ReadLine(text[1..])[..|r| - 2];
      r
  }

  /** The value of `etag` after lines 53-62: the integer 0 unless the sidecar
      exists and can be read, its first line otherwise. */
  function CachedEtag(sidecar: Sidecar): (v: PyValue)
    ensures v.PyStr? <==> sidecar.Text?
    ensures v.PyInt? ==> v.n == 0
  {
    match sidecar
    case Text(c) => PyStr(ReadLine(c))
    case _ => PyInt(0)
  }

  /** `resp.info().get('Etag', '')` */
  function RemoteEtag(head: Response): string {
    if head.etag.Some? then head.etag.value else ""
  }

  /** The decision of lines 65-75: abort on a failed HEAD request, exit with
      200 when the remote Etag equals the cached one, fetch otherwise. */
  function Decide(sidecar: Sidecar, head: Response): (d: Decision)
    ensures d.Abort? <==> head.status != 200
    ensures d.Abort? ==> d.status == head.status
    ensures d.Skip? <==> head.status == 200 && sidecar.Text? && ReadLine(sidecar.contents) == RemoteEtag(head)
    ensures d.Fetch? ==> d.etag == RemoteEtag(head)
  {
    if head.status != 200 then Abort(head.status)
    else if PyStr(RemoteEtag(head)) == CachedEtag(sidecar) then Skip
    else Fetch(RemoteEtag(head))
  }

  /** Without a readable sidecar the cached value is the integer 0, which no
      Etag string equals: a successful HEAD request always leads to a fetch. */
  lemma NoSidecarAlwaysFetches(sidecar: Sidecar, head: Response)
    requires !sidecar.Text?
    requires head.status == 200
    ensures Decide(sidecar, head) == Fetch(RemoteEtag(head))
  {
  }

  /** A text that `readline` returns whole: it has no newline, or its only
      newline is its last character. */
  predicate SingleLine(text: string) {
    '\n' !in text || (text[|text| - 1] == '\n' && '\n' !in text[..|text| - 1])
  }

  /** A second run against an unchanged resource reads back the Etag the
      first run wrote. It exits with 200 exactly when that Etag is a single
      line: an Etag with a line break before its end reads back cut short,
      never equals the remote one, and every run fetches again. */
  lemma RerunSkips(head: Response)
    ensures Decide(Text(RemoteEtag(head)), head).Skip? <==> head.status == 200 && SingleLine(RemoteEtag(head))
  {
  }

  /** A response without an Etag header counts as the Etag `''`: the run
      after one that completed against such a server reads back the empty
      sidecar, finds it equal, and exits with 200, so the report is not
      fetched again for as long as the server sends no Etag. */
  lemma MissingEtagNeverRefetches(head: Response, sidecar: string)
    requires head.status == 200 && head.etag.None?
    ensures Decide(Text(sidecar), head) == Skip <==> ReadLine(sidecar) == ""
  {
  }

  /** An Etag header is compared as sent: a sidecar whose first line differs
      from it leads to a fetch that carries it. */
  lemma ChangedEtagFetches(head: Response, sidecar: string)
    requires head.status == 200 && head.etag.Some?
    requires ReadLine(sidecar) != head.etag.value
    ensures Decide(Text(sidecar), head) == Fetch(head.etag.value)
  {
  }

  /** The files the cleanup of lines 77-80 leaves: all but the `.json` ones. */
  function WithoutShards(files: map<Path, seq<byte>>): map<Path, seq<byte>> {
    map p | p in files && !IsShardName(p) :: files[p]
  }

  /** The shard file a line goes to, or None when extracting its key raises. */
  function Route(keyOf: seq<byte> -> Option<string>, line: seq<byte>): Option<Path> {
    match keyOf(line)
    case None => None
    case Some(key) => Some(ShardPath(key))
  }

  /** The lines routed to `p`, in input order. */
  function Routed(lines: seq<seq<byte>>, keyOf: seq<byte> -> Option<string>, p: Path): seq<seq<byte>> {
    if lines == [] then []
    else
      var last := lines[|lines| - 1];
      Routed(lines[..|lines| - 1], keyOf, p) + (if Route(keyOf, last) == Some(p) then [last] else [])
  }

  /** The shard files the lines are routed to. */
  function ShardPaths(lines: seq<seq<byte>>, keyOf: seq<byte> -> Option<string>): set<Path> {
    if lines == [] then {}
    else
      var last := lines[|lines| - 1];
      ShardPaths(lines[..|lines| - 1], keyOf) + (if Route(keyOf, last).Some? then {Route(keyOf, last).value} else {})
  }

  /** The shard files the lines produce: one per shard path, holding the
      lines routed to it. */
  function ShardFiles(lines: seq<seq<byte>>, keyOf: seq<byte> -> Option<string>): map<Path, seq<byte>> {
    map p | p in ShardPaths(lines, keyOf) :: Concat(Routed(lines, keyOf, p))
  }

  /** How many lines are routed before the first line whose key cannot be
      extracted. */
  function Parsed(lines: seq<seq<byte>>, keyOf: seq<byte> -> Option<string>): (n: nat)
    ensures n <= |lines|
    ensures forall i :: 0 <= i < n ==> Route(keyOf, lines[i]).Some?
    ensures n < |lines| ==> Route(keyOf, lines[n]).None?
  {
    if lines == [] || Route(keyOf, lines[0]).None? then 0
    else 1 + Parsed(lines[1..], keyOf)
  }

  /** The handles open after a sequence of effects. */
  function OpenHandles(log: seq<Effect>): set<Path> {
    if log == [] then {}
    else
      var before := OpenHandles(log[..|log| - 1]);
      match log[|log| - 1]
      case Open(p) => before + {p}
      case Close(p) => before - {p}
      case _ => before
  }

  /** The paths opened by a sequence of effects, in the order they were
      opened. */
  function Opened(log: seq<Effect>): seq<Path> {
    if log == [] then []
    else
      var last := log[|log| - 1];
      Opened(log[..|log| - 1]) + (if last.Open? then [last.path] else [])
  }

  predicate Distinct(s: seq<Path>) {
    forall a, b :: 0 <= a < b < |s| ==> s[a] != s[b]
  }

  /** A shard holds exactly the input lines routed to it: each of its lines
      is an input line with that route, and every input line with that route
      is in it. */
  lemma {:induction false} RoutedExactly(lines: seq<seq<byte>>, keyOf: seq<byte> -> Option<string>, p: Path)
    ensures forall x :: x in Routed(lines, keyOf, p) ==> x in lines && Route(keyOf, x) == Some(p)
    ensures forall i :: 0 <= i < |lines| && Route(keyOf, lines[i]) == Some(p) ==> lines[i] in Routed(lines, keyOf, p)
  {
    if lines != [] {
      var init := lines[..|lines| - 1];
      RoutedExactly(init, keyOf, p);
      assert lines == init + [lines[|lines| - 1]];
      forall i | 0 <= i < |lines| && Route(keyOf, lines[i]) == Some(p)
        ensures lines[i] in Routed(lines, keyOf, p)
      {
        if i < |init| {
          assert init[i] == lines[i];
        }
      }
    }
  }

  /** The shard file of a key receives exactly the lines whose key is that
      key: no line of another key, and every line of this key. */
  lemma RoutedByKey(lines: seq<seq<byte>>, keyOf: seq<byte> -> Option<string>, k: string)
    ensures forall x :: x in Routed(lines, keyOf, ShardPath(k)) <==> x in lines && keyOf(x) == Some(k)
  {
    var p := ShardPath(k);
    RoutedExactly(lines, keyOf, p);
    forall x ensures x in Routed(lines, keyOf, p) <==> x in lines && keyOf(x) == Some(k) {
      if x in Routed(lines, keyOf, p) {
        ShardPathInjective(keyOf(x).value, k);
      }
      if x in lines && keyOf(x) == Some(k) {
        var i :| 0 <= i < |lines| && lines[i] == x;
        assert Route(keyOf, lines[i]) == Some(p);
      }
    }
  }

  /** Routing is compositional: the shard of a concatenated input is the
      shard of the first part followed by the shard of the second, so the
      lines of each shard stay in input order. */
  lemma {:induction false} RoutedAppend(a: seq<seq<byte>>, b: seq<seq<byte>>, keyOf: seq<byte> -> Option<string>, p: Path)
    ensures Routed(a + b, keyOf, p) == Routed(a, keyOf, p) + Routed(b, keyOf, p)
    decreases |b|
  {
    if b == [] {
      assert a + b == a;
    } else {
      var init := b[..|b| - 1];
      var last := b[|b| - 1];
      assert (a + b)[..|a + b| - 1] == a + init;
      RoutedAppend(a, init, keyOf, p);
    }
  }

  /** A shard file exists exactly for the paths that some line is routed
      to, so no shard file is empty. */
  lemma {:induction false} ShardPathsRouted(lines: seq<seq<byte>>, keyOf: seq<byte> -> Option<string>, p: Path)
    ensures p in ShardPaths(lines, keyOf) <==> Routed(lines, keyOf, p) != []
  {
    if lines != [] {
      ShardPathsRouted(lines[..|lines| - 1], keyOf, p);
    }
  }

  /** The shard paths are the paths of the distinct keys in the input. */
  lemma {:induction false} ShardPathsAreKeys(lines: seq<seq<byte>>, keyOf: seq<byte> -> Option<string>)
    ensures forall p :: p in ShardPaths(lines, keyOf) <==>
              exists i :: 0 <= i < |lines| && Route(keyOf, lines[i]) == Some(p)
  {
    if lines != [] {
      var init := lines[..|lines| - 1];
      ShardPathsAreKeys(init, keyOf);
      forall p ensures p in ShardPaths(lines, keyOf) <==>
                       exists i :: 0 <= i < |lines| && Route(keyOf, lines[i]) == Some(p)
      {
        if p in ShardPaths(init, keyOf) {
          var i :| 0 <= i < |init| && Route(keyOf, init[i]) == Some(p);
          assert lines[i] == init[i];
        }
        if i :| 0 <= i < |lines| && Route(keyOf, lines[i]) == Some(p) {
          if i < |init| {
            assert init[i] == lines[i];
          }
        }
      }
    }
  }

  /** Routing one more line changes only its own shard file, which it
      creates empty when needed and to which it appends the line. */
  lemma ShardFilesSnoc(lines: seq<seq<byte>>, line: seq<byte>, keyOf: seq<byte> -> Option<string>)
    requires Route(keyOf, line).Some?
    ensures var p := Route(keyOf, line).value;
            var before := ShardFiles(lines, keyOf);
            ShardFiles(lines + [line], keyOf) == before[p := (if p in before then before[p] else []) + line]
  {
    var p := Route(keyOf, line).value;
    var all := lines + [line];
    assert all[..|all| - 1] == lines;
    var before, after := ShardFiles(lines, keyOf), ShardFiles(all, keyOf);
    var expected := before[p := (if p in before then before[p] else []) + line];
    assert ShardPaths(all, keyOf) == ShardPaths(lines, keyOf) + {p};
    assert after.Keys == expected.Keys;
    forall q | q in after ensures after[q] == expected[q] {
      assert Routed(all, keyOf, q) == Routed(lines, keyOf, q) + (if q == p then [line] else []);
      if q == p {
        ShardPathsRouted(lines, keyOf, p);
        ConcatSnoc(Routed(lines, keyOf, p), line);
      } else {
        assert Routed(lines, keyOf, q) + [] == Routed(lines, keyOf, q);
      }
    }
  }

  /** Reading a shard file back with the line splitter gives exactly its
      lines, in input order. */
  lemma ShardReadsBack(lines: seq<seq<byte>>, keyOf: seq<byte> -> Option<string>, p: Path)
    requires AllLines(lines)
    ensures Lines(Concat(Routed(lines, keyOf, p))) == Routed(lines, keyOf, p)
  {
    var shard := Routed(lines, keyOf, p);
    RoutedExactly(lines, keyOf, p);
    assert AllLines(shard) by {
      forall k | 0 <= k < |shard| ensures IsLine(shard[k]) {
        assert shard[k] in lines;
      }
    }
    LinesOfConcat(shard, []);
    assert Concat(shard) + [] == Concat(shard);
  }

  /** After a completed run the `.json` files are exactly the shard files of
      the fetched lines: stale shards are gone. Every other file is kept as
      it was. */
  lemma ShardDirectoryExact(files: map<Path, seq<byte>>, lines: seq<seq<byte>>, keyOf: seq<byte> -> Option<string>)
    ensures var result := WithoutShards(files) + ShardFiles(lines, keyOf);
            && (forall p :: IsShardName(p) ==> (p in result <==> p in ShardPaths(lines, keyOf)))
            && (forall p :: !IsShardName(p) ==> (p in result <==> p in files))
            && (forall p :: p in result && !IsShardName(p) ==> result[p] == files[p])
  {
    ShardPathsAreKeys(lines, keyOf);
  }

  /** Effects that start from no open handle leave open what they open. */
  lemma {:induction false} OpenHandlesConcat(a: seq<Effect>, b: seq<Effect>)
    requires OpenHandles(a) == {}
    ensures OpenHandles(a + b) == OpenHandles(b)
    decreases |b|
  {
    if b == [] {
      assert a + b == a;
    } else {
      assert (a + b)[..|a + b| - 1] == a + b[..|b| - 1];
      OpenHandlesConcat(a, b[..|b| - 1]);
    }
  }

  /** The paths opened by two stretches of effects are those of the first
      followed by those of the second. */
  lemma {:induction false} OpenedConcat(a: seq<Effect>, b: seq<Effect>)
    ensures Opened(a + b) == Opened(a) + Opened(b)
    decreases |b|
  {
    if b == [] {
      assert a + b == a;
    } else {
      assert (a + b)[..|a + b| - 1] == a + b[..|b| - 1];
      OpenedConcat(a, b[..|b| - 1]);
    }
  }

  /** The line after the parsed ones is parsed too when its key can be
      extracted. */
  lemma ParsedNext(lines: seq<seq<byte>>, n: nat, keyOf: seq<byte> -> Option<string>)
    requires n < |lines| && n <= Parsed(lines, keyOf)
    requires Route(keyOf, lines[n]).Some?
    ensures n + 1 <= Parsed(lines, keyOf)
  {
    var m := Parsed(lines, keyOf);
    assert m != n by {
      assert m < |lines| ==> Route(keyOf, lines[m]).None?;
    }
  }

  /** The state of the `handles` dict of lines 82-97: the handles are
      distinct and are exactly the paths written to; each was opened once,
      in the order of the list; they are all still open; and the effects so
      far are only opens and writes. */
  ghost predicate HandleTable(written: map<Path, seq<byte>>, handles: seq<Path>, effects: seq<Effect>) {
    && Distinct(handles)
    && (forall q :: q in handles <==> q in written)
    && Opened(effects) == handles
    && OpenHandles(effects) == written.Keys
    && (forall e :: e in effects ==> e.Open? || e.Write?)
  }

  /** Lines 93-97: open the handle of `p` unless it is open already, then
      write the line through it. The handle table stays consistent. */
  method WriteLine(written: map<Path, seq<byte>>, handles: seq<Path>, effects: seq<Effect>, p: Path, line: seq<byte>)
    returns (written': map<Path, seq<byte>>, handles': seq<Path>, effects': seq<Effect>)
    requires HandleTable(written, handles, effects)
    ensures written' == written[p := (if p in written then written[p] else []) + line]
    ensures handles' == if p in handles then handles else handles + [p]
    ensures effects' == effects + (if p in handles then [] else [Open(p)]) + [Write(p, line)]
    ensures HandleTable(written', handles', effects')
  {
    written', handles', effects' := written, handles, effects;
    if p !in handles' {
      handles' := handles' + [p];
      written' := written'[p := []];
      assert (effects' + [Open(p)])[..|effects'|] == effects';
      effects' := effects' + [Open(p)];
    }
    written' := written'[p := written'[p] + line];
    assert (effects' + [Write(p, line)])[..|effects'|] == effects';
    effects' := effects' + [Write(p, line)];
  }

  /** The loop of lines 89-97: route every line to the handle of its shard
      path, opening the handle the first time the path is seen, until the
      lines run out or a key cannot be extracted. Returns what was written
      through each handle, the handles in the order they were opened, the
      open and write effects, and how many lines were routed. */
  method Partition(lines: seq<seq<byte>>, keyOf: seq<byte> -> Option<string>)
    returns (written: map<Path, seq<byte>>, handles: seq<Path>, effects: seq<Effect>, parsed: nat)
    ensures parsed == Parsed(lines, keyOf)
    ensures written == ShardFiles(lines[..parsed], keyOf)
    ensures Distinct(handles)
    ensures forall p :: p in handles <==> p in written
    ensures forall e :: e in effects ==> e.Open? || e.Write?
    ensures OpenHandles(effects) == written.Keys
    ensures Opened(effects) == handles
  {
    written, handles, effects := map[], [], [];
    var n := 0;
    while n < |lines|
      invariant n <= |lines|
      invariant n <= Parsed(lines, keyOf)
      invariant written == ShardFiles(lines[..n], keyOf)
      invariant HandleTable(written, handles, effects)
    {
      var line := lines[n];
      var key := keyOf(line);
      if key.None? {
        parsed := n;
        return;
      }
      var p := ShardPath(key.value);
      assert Route(keyOf, line) == Some(p);
      ParsedNext(lines, n, keyOf);
      assert lines[..n + 1] == lines[..n] + [line];
      ShardFilesSnoc(lines[..n], line, keyOf);
      written, handles, effects := WriteLine(written, handles, effects, p, line);
      n := n + 1;
    }
    parsed := n;
    assert lines[..n] == lines;
  }

  /** Lines 77-80: remove every `.json` file under the output directory,
      in whatever order the walk finds them, and keep every other file. */
  method RemoveShards(files: map<Path, seq<byte>>) returns (files': map<Path, seq<byte>>, removals: seq<Effect>)
    ensures files' == WithoutShards(files)
    ensures forall e :: e in removals ==> e.Remove? && e.path in files && IsShardName(e.path)
    ensures forall p :: p in files && IsShardName(p) ==> Remove(p) in removals
    ensures OpenHandles(removals) == {}
    ensures Opened(removals) == []
  {
    files', removals := files, [];
    var stale := set p | p in files && IsShardName(p);
    while stale != {}
      invariant forall p :: p in files' <==> p in files && (!IsShardName(p) || p in stale)
      invariant forall p :: p in files' ==> files'[p] == files[p]
      invariant stale <= files'.Keys
      invariant forall e :: e in removals ==> e.Remove? && e.path in files && IsShardName(e.path)
      invariant forall p :: p in files && IsShardName(p) && p !in stale ==> Remove(p) in removals
      invariant OpenHandles(removals) == {}
      invariant Opened(removals) == []
      decreases stale
    {
      var p :| p in stale;
      files' := files' - {p};
      stale := stale - {p};
      assert (removals + [Remove(p)])[..|removals|] == removals;
      removals := removals + [Remove(p)];
    }
  }

  /** A close removes its path from the open handles and opens nothing. */
  lemma CloseStep(log: seq<Effect>, p: Path)
    ensures OpenHandles(log + [Close(p)]) == OpenHandles(log) - {p}
    ensures Opened(log + [Close(p)]) == Opened(log)
  {
    assert (log + [Close(p)])[..|log|] == log;
  }

  /** Line 99: close every handle, in the order they were opened. Afterwards
      no handle is open, and closing is all that was added to the log. */
  method CloseAll(handles: seq<Path>, log: seq<Effect>) returns (log': seq<Effect>)
    requires Distinct(handles)
    requires forall p :: p in OpenHandles(log) <==> p in handles
    ensures log' == log + seq(|handles|, k requires 0 <= k < |handles| => Close(handles[k]))
    ensures forall e :: e in log' ==> e in log || e.Close?
    ensures OpenHandles(log') == {}
    ensures Opened(log') == Opened(log)
  {
    log' := log;
    var c := 0;
    while c < |handles|
      invariant c <= |handles|
      invariant log' == log + seq(c, k requires 0 <= k < c => Close(handles[k]))
      invariant forall e :: e in log' ==> e in log || e.Close?
      invariant forall p :: p in OpenHandles(log') <==> p in handles[c..]
      invariant Opened(log') == Opened(log)
    {
      CloseStep(log', handles[c]);
      log' := log' + [Close(handles[c])];
      c := c + 1;
    }
  }

  /** The whole run, lines 52-102. The HTTP responses and the key extraction
      are parameters; the returned log lists the file effects in order. */
  method Download(disk: Disk, head: Response, get: Response, keyOf: seq<byte> -> Option<string>)
    returns (outcome: Outcome, after: Disk, log: seq<Effect>)
    ensures Decide(disk.sidecar, head).Abort? ==> outcome == HttpError(head.status) && after == disk && log == []
    ensures Decide(disk.sidecar, head).Skip? ==> outcome == NotModified && after == disk && log == []
    ensures Decide(disk.sidecar, head).Fetch? ==>
              forall p :: p in disk.files && IsShardName(p) ==> Remove(p) in log
    ensures Decide(disk.sidecar, head).Fetch? && get.status != 200 ==>
              outcome == HttpError(get.status) && after == Disk(WithoutShards(disk.files), disk.sidecar)
    ensures Decide(disk.sidecar, head).Fetch? && get.status == 200 ==>
              var lines := Lines(StreamBytes(get.body));
              var n := Parsed(lines, keyOf);
              && after.files == WithoutShards(disk.files) + ShardFiles(lines[..n], keyOf)
              && (n < |lines| ==> outcome == ParseError(n) && after.sidecar == disk.sidecar)
              && (n == |lines| ==> outcome == Updated && after.sidecar == Text(RemoteEtag(head)))
    ensures Distinct(Opened(log))
    ensures outcome.Updated? ==>
              && |log| > 0
              && log[|log| - 1] == WriteSidecar(RemoteEtag(head))
              && OpenHandles(log[..|log| - 1]) == {}
              && forall e :: e in log[..|log| - 1] ==> !e.WriteSidecar?
    ensures !outcome.Updated? ==> forall e :: e in log ==> !e.WriteSidecar?
  {
    log := [];
    after := disk;
    var decision := Decide(disk.sidecar, head);
    if decision.Abort? {
      outcome := HttpError(decision.status);
      return;
    } else if decision.Skip? {
      outcome := NotModified;
      return;
    }
    var remoteEtag := decision.etag;

    var files, removals := RemoveShards(disk.files);
    log := removals;
    after := Disk(files, disk.sidecar);
    if get.status != 200 {
      outcome := HttpError(get.status);
      return;
    }

    var lines := ChunkedLines(get.body);
    var written, handles, effects, n := Partition(lines, keyOf);
    OpenHandlesConcat(log, effects);
    OpenedConcat(log, effects);
    log := log + effects;
    assert forall e :: e in log ==> e.Remove? || e.Open? || e.Write?;
    after := Disk(files + written, disk.sidecar);
    if n < |lines| {
      outcome := ParseError(n);
      return;
    }

    log := CloseAll(handles, log);
    assert forall e :: e in log ==> !e.WriteSidecar?;
    ghost var closed := log;
    log := log + [WriteSidecar(remoteEtag)];
    assert log[..|log| - 1] == closed;
    after := Disk(files + written, Text(remoteEtag));
    outcome := Updated;
  }

  /** Two runs in a row against a resource whose Etag did not change: when
      the first run completes and its Etag is a single line, the second one
      exits with 200 and leaves the output directory as the first one left
      it; an Etag with an inner line break makes the second run fetch again. */
  method Rerun(disk: Disk, head: Response, get: Response, keyOf: seq<byte> -> Option<string>)
    returns (first: Outcome, second: Outcome, afterFirst: Disk, afterSecond: Disk)
    ensures first.Updated? && SingleLine(RemoteEtag(head)) ==> second == NotModified && afterSecond == afterFirst
    ensures first.Updated? && !SingleLine(RemoteEtag(head)) ==> second != NotModified
  {
    var log1, log2;
    first, afterFirst, log1 := Download(disk, head, get, keyOf);
    second, afterSecond, log2 := Download(afterFirst, head, get, keyOf);
    if first.Updated? {
      RerunSkips(head);
    }
  }
}
