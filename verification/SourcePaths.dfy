/** Interning of source paths (`SourcePaths`, `canonical_step_path` and `same_logical_source` in
    `src/recorder.rs`): every spelling of a file found in debug information gets one recorded path,
    and a file is registered with its line table at its first mention. */
module SourcePaths {
  import opened Words
  import opened Wrappers
  import opened LineTable

  // ---------------------------------------------------------------------------
  // Paths
  // ---------------------------------------------------------------------------

  /** The text between slashes. */
  function Pieces(path: string): (pieces: seq<string>)
    ensures pieces != []
  {
    if path == "" then [""]
    else
      var rest := Pieces(path[1..]);
      if path[0] == '/' then [""] + rest else [[path[0]] + rest[0]] + rest[1..]
  }

  function Unite(pieces: seq<string>): string
    requires pieces != []
  {
    if |pieces| == 1 then pieces[0] else pieces[0] + "/" + Unite(pieces[1..])
  }

  /** What `PathBuf` compares: whether the path is absolute, and its components, without empty ones
      and without "." except in front. */
  datatype PathKey = PathKey(absolute: bool, components: seq<string>)

  function Key(path: string): PathKey {
    var pieces := Pieces(path);
    PathKey(IsAbsolute(path), (if pieces[0] == "" then [] else [pieces[0]]) + Named(pieces[1..]))
  }

  function Named(pieces: seq<string>): seq<string> {
    if pieces == [] then []
    else (if pieces[0] == "" || pieces[0] == "." then [] else [pieces[0]]) + Named(pieces[1..])
  }

  predicate IsAbsolute(path: string) {
    path != "" && path[0] == '/'
  }

  /** `Path::join` */
  function Joined(root: string, path: string): string {
    if IsAbsolute(path) then path
    else if root == "" || root[|root| - 1] == '/' then root + path
    else root + "/" + path
  }

  predicate IsSuffix(tail: string, whole: string) {
    |tail| <= |whole| && whole[|whole| - |tail|..] == tail
  }

  /** whole is tail, or ends in "/" and tail. */
  predicate HangsOff(whole: string, tail: string) {
    && IsSuffix(tail, whole)
    && var front := whole[..|whole| - |tail|];
    && (front == "" || front[|front| - 1] == '/')
  }

  predicate SameLogicalSource(anchor: string, candidate: string) {
    anchor == candidate || HangsOff(anchor, candidate) || HangsOff(candidate, anchor)
  }

  // ---------------------------------------------------------------------------
  // What one recording is set up with
  // ---------------------------------------------------------------------------

  /** The file system, unchanging while a trace is recorded. */
  datatype FileSystem = FileSystem(contents: string -> Option<seq<byte>>, present: string -> bool)

  datatype Setup = Setup(
    sourcePath: string,
    sourceDir: Option<string>,
    userCrateRoot: Option<string>,
    files: FileSystem)
  {
    /** `canonical_step_path` */
    function Canonical(file: string): string {
      if SameLogicalSource(sourcePath, file) then sourcePath
      else if userCrateRoot.Some? && IsAbsolute(file) then file
      else if userCrateRoot.Some? && files.present(Joined(userCrateRoot.value, file)) then
        Joined(userCrateRoot.value, file)
      else file
    }

    function TableAt(path: string): seq<nat> {
      TableOf(path, files.contents(path))
    }

    /** The table a file is registered with: read at the recorded path, else beside the source. */
    function Table(file: string): seq<nat> {
      var here := TableAt(Canonical(file));
      if here != [] then here
      else if sourceDir.Some? then TableAt(Joined(sourceDir.value, file))
      else []
    }

    function Names(): Naming {
      Naming(file => Canonical(file), path => Key(path), file => Table(file))
    }
  }

  /** How spellings map to recorded paths, recorded paths to files, and spellings to line tables.
      What a run amounts to depends on nothing else. */
  datatype Naming = Naming(path: string -> string, key: string -> PathKey, table: string -> seq<nat>) {
    function KeyOf(file: string): PathKey {
      key(path(file))
    }
  }

  /** A `register_path_with_line_lengths` call. */
  datatype Registration = Registration(path: string, lengths: seq<nat>)

  // ---------------------------------------------------------------------------
  // What a run has to amount to
  // ---------------------------------------------------------------------------

  predicate Mentioned(n: Naming, calls: seq<string>, key: PathKey) {
    exists k :: 0 <= k < |calls| && n.KeyOf(calls[k]) == key
  }

  /** One registration for each file, at its first mention. */
  function FirstMentions(n: Naming, calls: seq<string>): seq<Registration> {
    if calls == [] then []
    else
      var front, file := calls[..|calls| - 1], calls[|calls| - 1];
      if Mentioned(n, front, n.KeyOf(file)) then FirstMentions(n, front)
      else FirstMentions(n, front) + [Registration(n.path(file), n.table(file))]
  }

  /** The call that mentions a file first. */
  function FirstCall(n: Naming, calls: seq<string>, key: PathKey): (k: nat)
    requires Mentioned(n, calls, key)
    ensures k < |calls| && n.KeyOf(calls[k]) == key
    ensures forall i :: 0 <= i < k ==> n.KeyOf(calls[i]) != key
  {
    if n.KeyOf(calls[0]) == key then 0
    else
      assert Mentioned(n, calls[1..], key) by {
        var k :| 0 <= k < |calls| && n.KeyOf(calls[k]) == key;
        assert calls[1..][k - 1] == calls[k];
      }
      1 + FirstCall(n, calls[1..], key)
  }

  /** The cache of recorded paths after the calls. */
  function Recorded(n: Naming, calls: seq<string>): map<string, string> {
    if calls == [] then map[]
    else
      var file := calls[|calls| - 1];
      Recorded(n, calls[..|calls| - 1])[file := n.path(file)]
  }

  /** The table flags after the calls. */
  function Flags(n: Naming, calls: seq<string>): map<PathKey, bool> {
    if calls == [] then map[]
    else
      var before, file := Flags(n, calls[..|calls| - 1]), calls[|calls| - 1];
      if n.KeyOf(file) in before then before else before[n.KeyOf(file) := n.table(file) != []]
  }

  // ---------------------------------------------------------------------------
  // The interner
  // ---------------------------------------------------------------------------

  class PathInterner {
    const setup: Setup
    /** Per spelling seen in debug information: the path the file is recorded under. */
    var canonical: map<string, string>
    /** Per recorded path: whether it was registered with a line table. */
    var tabled: map<PathKey, bool>
    /** What the trace writer was told. */
    var log: seq<Registration>
    /** The calls so far. */
    ghost var calls: seq<string>

    ghost predicate Valid()
      reads this
    {
      && canonical == Recorded(setup.Names(), calls)
      && tabled == Flags(setup.Names(), calls)
      && log == FirstMentions(setup.Names(), calls)
    }

    constructor (setup: Setup)
      ensures Valid() && this.setup == setup && calls == []
    {
      this.setup := setup;
      canonical := map[];
      tabled := map[];
      log := [];
      calls := [];
    }

    /** The path `file` is recorded under, registered if this is the file's first mention. */
    method Ensure(file: string) returns (path: string)
      requires Valid()
      modifies this
      ensures Valid() && calls == old(calls) + [file]
      ensures path == setup.Canonical(file) == setup.Names().path(file)
    {
      if file in canonical {
        FileHit(setup, calls, file);
        path := canonical[file];
        calls := calls + [file];
      } else {
        path := EnsureNew(file);
      }
    }

    /** The rest of `ensure`, for a spelling not seen before. */
    method EnsureNew(file: string) returns (path: string)
      requires Valid()
      modifies this
      ensures Valid() && calls == old(calls) + [file]
      ensures path == setup.Canonical(file) == setup.Names().path(file)
    {
      path := setup.Canonical(file);
      FileMissed(setup, calls, file);
      var key := Key(path);
      if key !in tabled {
        var lengths := ReadTable(file);
        log := log + [Registration(path, lengths)];
        tabled := tabled[key := lengths != []];
      }
      canonical := canonical[file := path];
      calls := calls + [file];
    }

    method ReadTable(file: string) returns (lengths: seq<nat>)
      ensures lengths == setup.Table(file)
    {
      lengths := setup.TableAt(setup.Canonical(file));
      if lengths == [] && setup.sourceDir.Some? {
        lengths := setup.TableAt(Joined(setup.sourceDir.value, file));
      }
    }

    /** Whether the file was registered with a line table. */
    function HasTable(path: string): (r: bool)
      requires Valid()
      reads this
      ensures r <==>
        && Mentioned(setup.Names(), calls, Key(path))
        && setup.Table(calls[FirstCall(setup.Names(), calls, Key(path))]) != []
    {
      FlagsAre(setup.Names(), calls, Key(path));
      Key(path) in tabled && tabled[Key(path)]
    }
  }

  lemma {:induction false} RecordedIs(n: Naming, calls: seq<string>, file: string)
    ensures file in Recorded(n, calls) <==> file in calls
    ensures file in Recorded(n, calls) ==> Recorded(n, calls)[file] == n.path(file)
  {
    if calls != [] {
      RecordedIs(n, calls[..|calls| - 1], file);
      assert calls == calls[..|calls| - 1] + [calls[|calls| - 1]];
    }
  }

  /** The flag of a file is that of its first mention. */
  lemma {:induction false} FlagsAre(n: Naming, calls: seq<string>, key: PathKey)
    ensures key in Flags(n, calls) <==> Mentioned(n, calls, key)
    ensures Mentioned(n, calls, key) ==> Flags(n, calls)[key] == (n.table(calls[FirstCall(n, calls, key)]) != [])
  {
    if calls != [] {
      var front, file := calls[..|calls| - 1], calls[|calls| - 1];
      assert calls == front + [file];
      FlagsAre(n, front, key);
      MentionedNow(n, front, file, key);
    }
  }

  /** What one more call does to the mentions of a file. */
  lemma MentionedNow(n: Naming, calls: seq<string>, file: string, key: PathKey)
    ensures Mentioned(n, calls + [file], key) <==> Mentioned(n, calls, key) || key == n.KeyOf(file)
    ensures Mentioned(n, calls, key) ==> FirstCall(n, calls + [file], key) == FirstCall(n, calls, key)
    ensures !Mentioned(n, calls, key) && key == n.KeyOf(file) ==> FirstCall(n, calls + [file], key) == |calls|
  {
    var more := calls + [file];
    if Mentioned(n, calls, key) {
      var k := FirstCall(n, calls, key);
      assert more[k] == calls[k];
      var j := FirstCall(n, more, key);
      assert j < |calls| ==> more[j] == calls[j];
    } else if key == n.KeyOf(file) {
      assert n.KeyOf(more[|calls|]) == key;
      var j := FirstCall(n, more, key);
      forall k | 0 <= k < |calls| ensures n.KeyOf(more[k]) != key {
        assert more[k] == calls[k];
      }
    } else {
      forall k | 0 <= k < |more| ensures n.KeyOf(more[k]) != key {
        assert k < |calls| ==> more[k] == calls[k];
      }
    }
  }

  /** A spelling seen before changes nothing. */
  lemma SeenAgain(n: Naming, calls: seq<string>, file: string)
    requires file in Recorded(n, calls)
    ensures Recorded(n, calls)[file] == n.path(file)
    ensures Recorded(n, calls + [file]) == Recorded(n, calls)
    ensures Flags(n, calls + [file]) == Flags(n, calls)
    ensures FirstMentions(n, calls + [file]) == FirstMentions(n, calls)
  {
    assert (calls + [file])[..|calls|] == calls;
    RecordedIs(n, calls, file);
    var k :| 0 <= k < |calls| && calls[k] == file;
    assert Mentioned(n, calls, n.KeyOf(calls[k]));
    FlagsAre(n, calls, n.KeyOf(file));
  }

  lemma FileHit(s: Setup, calls: seq<string>, file: string)
    ensures
      var n, more := s.Names(), calls + [file];
      file in Recorded(n, calls) ==>
      && Recorded(n, calls)[file] == s.Canonical(file)
      && Recorded(n, more) == Recorded(n, calls)
      && Flags(n, more) == Flags(n, calls)
      && FirstMentions(n, more) == FirstMentions(n, calls)
  {
    if file in Recorded(s.Names(), calls) {
      SeenAgain(s.Names(), calls, file);
    }
  }

  lemma FileMissed(s: Setup, calls: seq<string>, file: string)
    ensures
      var n, more, path, lengths := s.Names(), calls + [file], s.Canonical(file), s.Table(file);
      && Recorded(n, more) == Recorded(n, calls)[file := path]
      && Flags(n, more) ==
         (if Key(path) in Flags(n, calls) then Flags(n, calls) else Flags(n, calls)[Key(path) := lengths != []])
      && FirstMentions(n, more) ==
         if Key(path) in Flags(n, calls) then FirstMentions(n, calls)
         else FirstMentions(n, calls) + [Registration(path, lengths)]
  {
    var n := s.Names();
    assert (calls + [file])[..|calls|] == calls;
    FlagsAre(n, calls, n.KeyOf(file));
  }

  // ---------------------------------------------------------------------------
  // Whole runs
  // ---------------------------------------------------------------------------

  /** A registration of the log is that of the file's first mention, and the log has one for each
      file mentioned, and no other: the writer hears of every file exactly once. */
  ghost predicate RegisteredOnce(n: Naming, calls: seq<string>, key: PathKey, log: seq<Registration>) {
    if Mentioned(n, calls, key) then
      var first := calls[FirstCall(n, calls, key)];
      exists k :: RegisteredAt(n, key, log, k) && log[k] == Registration(n.path(first), n.table(first))
    else
      forall k :: 0 <= k < |log| ==> n.key(log[k].path) != key
  }

  /** Entry k of the log, and no other, is the file's. */
  ghost predicate RegisteredAt(n: Naming, key: PathKey, log: seq<Registration>, k: int) {
    0 <= k < |log| && forall j :: 0 <= j < |log| ==> (n.key(log[j].path) == key <==> j == k)
  }

  lemma {:induction false} EachFileOnce(n: Naming, calls: seq<string>, key: PathKey)
    ensures RegisteredOnce(n, calls, key, FirstMentions(n, calls))
  {
    if calls != [] {
      var front, file := calls[..|calls| - 1], calls[|calls| - 1];
      assert calls == front + [file];
      EachFileOnce(n, front, key);
      MentionedNow(n, front, file, key);
      var before, log := FirstMentions(n, front), FirstMentions(n, calls);
      if Mentioned(n, front, key) {
        var first := front[FirstCall(n, front, key)];
        var k :| RegisteredAt(n, key, before, k) && before[k] == Registration(n.path(first), n.table(first));
        assert RegisteredAt(n, key, log, k);
      } else if key == n.KeyOf(file) {
        assert RegisteredAt(n, key, log, |before|);
      }
    }
  }

  /** The log only grows: a file is registered no later than the call that first names it. */
  lemma {:induction false} LogGrows(n: Naming, calls: seq<string>, i: nat)
    requires i <= |calls|
    ensures FirstMentions(n, calls[..i]) <= FirstMentions(n, calls)
  {
    if i < |calls| {
      var front := calls[..|calls| - 1];
      assert front[..i] == calls[..i];
      LogGrows(n, front, i);
    } else {
      assert calls[..i] == calls;
    }
  }

  /** At the return of call i and ever after, the path it returns names a file that was registered
      exactly once, already by then, and its table flag says whether that registration carried a
      table. */
  lemma ReturnedPathsAreRegistered(n: Naming, calls: seq<string>, i: nat)
    requires i < |calls|
    ensures
      var key := n.key(n.path(calls[i]));
      var soon, log, flags := FirstMentions(n, calls[..i + 1]), FirstMentions(n, calls), Flags(n, calls);
      exists k ::
        && RegisteredAt(n, key, soon, k) && RegisteredAt(n, key, log, k) && soon[k] == log[k]
        && key in flags && flags[key] == (log[k].lengths != [])
  {
    var key, upTo := n.KeyOf(calls[i]), calls[..i + 1];
    assert n.KeyOf(upTo[i]) == key;
    EachFileOnce(n, upTo, key);
    EachFileOnce(n, calls, key);
    LogGrows(n, calls, i + 1);
    FlagsAre(n, calls, key);
    var k :| RegisteredAt(n, key, FirstMentions(n, upTo), k);
    assert FirstMentions(n, calls)[k] == FirstMentions(n, upTo)[k];
  }

  ghost predicate TextRegistered(log: seq<Registration>, path: string) {
    exists k :: 0 <= k < |log| && log[k].path == path
  }

  /** The text returned by a call is among those registered exactly when the file's first mention
      spelled it the same way. */
  lemma ReturnedTextIsRegisteredIff(n: Naming, calls: seq<string>, i: nat)
    requires i < |calls| && Mentioned(n, calls, n.KeyOf(calls[i]))
    ensures
      var first := calls[FirstCall(n, calls, n.KeyOf(calls[i]))];
      TextRegistered(FirstMentions(n, calls), n.path(calls[i])) <==> n.path(first) == n.path(calls[i])
  {
    var key, log := n.KeyOf(calls[i]), FirstMentions(n, calls);
    EachFileOnce(n, calls, key);
    var first := calls[FirstCall(n, calls, key)];
    var k :| RegisteredAt(n, key, log, k) && log[k] == Registration(n.path(first), n.table(first));
    forall j | 0 <= j < |log| && log[j].path == n.path(calls[i]) ensures j == k {
      assert n.key(log[j].path) == key;
    }
  }

  /** Two spellings of one file can become two strings in the records: `PathBuf` reads "a//b" and
      "a/b" as one path, so only the first is registered, and the second is returned all the same. */
  lemma SecondSpellingIsReturnedUnregistered(files: FileSystem)
    ensures
      var s := Setup("x", None, None, files);
      var calls := ["a//b", "a/b"];
      s.Canonical("a/b") == "a/b" && !TextRegistered(FirstMentions(s.Names(), calls), "a/b")
  {
    var s := Setup("x", None, None, files);
    var n, calls := s.Names(), ["a//b", "a/b"];
    SameComponents();
    assert s.Canonical("a//b") == "a//b" && s.Canonical("a/b") == "a/b";
    assert n.KeyOf(calls[0]) == n.KeyOf(calls[1]) == Key("a/b");
    assert Mentioned(n, calls, n.KeyOf(calls[1]));
    assert FirstCall(n, calls, n.KeyOf(calls[1])) == 0;
    ReturnedTextIsRegisteredIff(n, calls, 1);
  }

  lemma SameComponents()
    ensures Key("a//b") == Key("a/b")
  {
  }

  // ---------------------------------------------------------------------------
  // Which spellings are the anchor's
  // ---------------------------------------------------------------------------

  /** The last pieces of whole are tail. */
  predicate IsTail(tail: seq<string>, whole: seq<string>) {
    tail == whole || (|tail| < |whole| && IsTail(tail, whole[1..]))
  }

  lemma {:induction false} TailIsSuffix(tail: seq<string>, whole: seq<string>)
    ensures IsTail(tail, whole) <==> |tail| <= |whole| && whole[|whole| - |tail|..] == tail
    decreases |whole|
  {
    if |tail| < |whole| {
      TailIsSuffix(tail, whole[1..]);
      assert whole[1..][|whole| - 1 - |tail|..] == whole[|whole| - |tail|..];
    }
  }

  lemma {:induction false} PiecesOfBoth(a: string, b: string)
    ensures Pieces(a + "/" + b) == Pieces(a) + Pieces(b)
  {
    if a == "" {
      assert (a + "/" + b)[1..] == b;
    } else {
      assert (a + "/" + b)[1..] == a[1..] + "/" + b;
      PiecesOfBoth(a[1..], b);
    }
  }

  lemma {:induction false} UnitePieces(path: string)
    ensures Unite(Pieces(path)) == path
  {
    if path != "" {
      UnitePieces(path[1..]);
      assert path == [path[0]] + path[1..];
      if path[0] == '/' {
        assert Pieces(path)[1..] == Pieces(path[1..]);
      } else {
        var rest := Pieces(path[1..]);
        assert Pieces(path)[1..] == rest[1..];
      }
    }
  }

  lemma {:induction false} UniteBoth(a: seq<string>, b: seq<string>)
    requires a != [] && b != []
    ensures Unite(a + b) == Unite(a) + "/" + Unite(b)
  {
    assert (a + b)[1..] == a[1..] + b;
    if |a| > 1 {
      UniteBoth(a[1..], b);
    }
  }

  lemma HangingPieces(whole: string, tail: string)
    requires HangsOff(whole, tail)
    ensures IsTail(Pieces(tail), Pieces(whole))
  {
    TailIsSuffix(Pieces(tail), Pieces(whole));
    var front := whole[..|whole| - |tail|];
    if front == "" {
      assert whole == tail;
    } else {
      var dir := front[..|front| - 1];
      assert whole == dir + "/" + tail;
      PiecesOfBoth(dir, tail);
    }
  }

  lemma PiecesHang(whole: string, tail: string)
    requires IsTail(Pieces(tail), Pieces(whole))
    ensures HangsOff(whole, tail)
  {
    TailIsSuffix(Pieces(tail), Pieces(whole));
    var front := Pieces(whole)[..|Pieces(whole)| - |Pieces(tail)|];
    assert Pieces(whole) == front + Pieces(tail);
    UnitePieces(whole);
    UnitePieces(tail);
    if front == [] {
      assert front + Pieces(tail) == Pieces(tail);
    } else {
      UniteBoth(front, Pieces(tail));
    }
  }

  /** Ending in the other text at a slash is ending in its pieces. */
  lemma HangsOffIff(whole: string, tail: string)
    ensures HangsOff(whole, tail) <==> IsTail(Pieces(tail), Pieces(whole))
  {
    if HangsOff(whole, tail) {
      HangingPieces(whole, tail);
    } else if IsTail(Pieces(tail), Pieces(whole)) {
      PiecesHang(whole, tail);
    }
  }

  /** Two paths name one source when the pieces of one end the other's, in either direction. */
  lemma SameLogicalSourceIff(anchor: string, candidate: string)
    ensures SameLogicalSource(anchor, candidate) <==>
      IsTail(Pieces(candidate), Pieces(anchor)) || IsTail(Pieces(anchor), Pieces(candidate))
  {
    HangsOffIff(anchor, candidate);
    HangsOffIff(candidate, anchor);
  }
}
