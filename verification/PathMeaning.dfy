/** What spellings mean (`src/recorder.rs`): which paths are equal, where a file is recorded, and where
    its line table is looked for. */
module PathMeaning {
  import opened LineTable
  import opened SourcePaths

  // ---------------------------------------------------------------------------
  // Equal paths
  // ---------------------------------------------------------------------------

  lemma {:induction false} NamedBoth(a: seq<string>, b: seq<string>)
    ensures Named(a + b) == Named(a) + Named(b)
  {
    if a == [] {
      assert a + b == b;
    } else {
      assert (a + b)[1..] == a[1..] + b;
      NamedBoth(a[1..], b);
    }
  }

  /** The components pieces make: the first, unless it is empty, and those after it that have a name. */
  function Components(pieces: seq<string>): seq<string>
    requires pieces != []
  {
    (if pieces[0] == "" then [] else [pieces[0]]) + Named(pieces[1..])
  }

  lemma ComponentsBoth(p: seq<string>, q: seq<string>)
    requires p != []
    ensures Components(p + q) == Components(p) + Named(q)
  {
    assert (p + q)[1..] == p[1..] + q;
    NamedBoth(p[1..], q);
  }

  /** The components of a path with more text after a slash are its own and those after it. */
  lemma KeyOfBoth(a: string, b: string)
    ensures Key(a + "/" + b).components == Key(a).components + Named(Pieces(b))
    ensures a != "" ==> Key(a + "/" + b).absolute == Key(a).absolute
  {
    var whole := a + "/" + b;
    PiecesOfBoth(a, b);
    ComponentsBoth(Pieces(a), Pieces(b));
    assert Key(whole).components == Components(Pieces(whole));
    assert Key(a).components == Components(Pieces(a));
    assert a != "" ==> whole[0] == a[0];
  }

  /** After the start of a path, empty pieces and "." count for nothing, and neither does a slash at the end. */
  lemma SpellingsOfOnePath(a: string, b: string)
    requires a != ""
    ensures Key(a + "/" + ("/" + b)) == Key(a + "/" + b)
    ensures Key(a + "/" + ("./" + b)) == Key(a + "/" + b)
    ensures Key(a + "/") == Key(a) == Key(a + "/" + ".")
  {
    KeyOfBoth(a, b);
    EmptyPieceIsNothing(b);
    KeyOfBoth(a, "/" + b);
    DotIsNothing(b);
    KeyOfBoth(a, "./" + b);
    EndsAreNothing();
    KeyOfBoth(a, "");
    KeyOfBoth(a, ".");
    assert a + "/" + "" == a + "/";
  }

  lemma EmptyPieceIsNothing(b: string)
    ensures Named(Pieces("/" + b)) == Named(Pieces(b))
  {
    assert ("/" + b)[1..] == b;
    assert ([""] + Pieces(b))[1..] == Pieces(b);
  }

  lemma DotIsNothing(b: string)
    ensures Named(Pieces("./" + b)) == Named(Pieces(b))
  {
    assert "./" + b == "." + "/" + b;
    PiecesOfBoth(".", b);
    PiecesOfPlain(".");
    assert (["."] + Pieces(b))[1..] == Pieces(b);
  }

  lemma EndsAreNothing()
    ensures Named(Pieces("")) == [] == Named(Pieces("."))
  {
    PiecesOfPlain(".");
  }

  /** A plain piece of a path: no slash, not empty and not ".". */
  predicate IsPlain(piece: string) {
    piece != "" && piece != "." && '/' !in piece
  }

  lemma {:induction false} PiecesOfPlain(piece: string)
    requires '/' !in piece
    ensures Pieces(piece) == [piece]
  {
    if piece != "" {
      PiecesOfPlain(piece[1..]);
      assert piece == [piece[0]] + piece[1..];
    }
  }

  lemma {:induction false} PiecesOfPlains(pieces: seq<string>)
    requires pieces != [] && forall k :: 0 <= k < |pieces| ==> IsPlain(pieces[k])
    ensures Pieces(Unite(pieces)) == pieces && Named(pieces) == pieces
  {
    PiecesOfPlain(pieces[0]);
    if |pieces| > 1 {
      PiecesOfPlains(pieces[1..]);
      PiecesOfBoth(pieces[0], Unite(pieces[1..]));
    } else {
      assert pieces[1..] == [];
    }
  }

  /** Paths of plain pieces, below the root or not, are equal exactly when their pieces are and both or
      neither start at the root. */
  lemma PlainPathsAreTheirPieces(pieces: seq<string>)
    requires pieces != [] && forall k :: 0 <= k < |pieces| ==> IsPlain(pieces[k])
    ensures Key(Unite(pieces)) == PathKey(false, pieces)
    ensures Key("/" + Unite(pieces)) == PathKey(true, pieces)
  {
    PiecesOfPlains(pieces);
    var text := Unite(pieces);
    PlainStart(pieces);
    assert pieces == [pieces[0]] + pieces[1..];
    assert Key(text).components == Components(pieces) == pieces by {
      assert Named(pieces) == [pieces[0]] + Named(pieces[1..]);
    }
    var rooted := "/" + text;
    assert rooted[1..] == text && Pieces(rooted) == [""] + pieces;
    assert Key(rooted).components == Components([""] + pieces);
    assert ([""] + pieces)[1..] == pieces;
  }

  lemma PlainStart(pieces: seq<string>)
    requires pieces != [] && IsPlain(pieces[0])
    ensures Unite(pieces) != "" && Unite(pieces)[0] != '/'
  {
    assert pieces[0][0] in pieces[0];
    if |pieces| > 1 {
      assert Unite(pieces) == pieces[0] + ("/" + Unite(pieces[1..]));
    }
  }

  // ---------------------------------------------------------------------------
  // Where a file is recorded
  // ---------------------------------------------------------------------------

  /** The pieces of one path end the other's. */
  predicate SameTail(a: string, b: string) {
    IsTail(Pieces(a), Pieces(b)) || IsTail(Pieces(b), Pieces(a))
  }

  lemma JoinedEndsInFile(root: string, file: string)
    ensures IsTail(Pieces(file), Pieces(Joined(root, file)))
    ensures !IsAbsolute(file) ==> root <= Joined(root, file)
  {
    HangsOffIff(Joined(root, file), file);
    var whole := Joined(root, file);
    assert whole[|whole| - |file|..] == file;
  }

  /** The path a file is recorded under always names it: the pieces of one end those of the other.  It is the
      anchor's for every spelling that does; an absolute path is kept; a relative one is taken below the
      user's crate if it is there, and else kept too. */
  lemma CanonicalNamesTheFile(s: Setup, file: string)
    ensures SameTail(s.Canonical(file), file)
    ensures SameTail(s.sourcePath, file) ==> s.Canonical(file) == s.sourcePath
    ensures !SameTail(s.sourcePath, file) && (s.userCrateRoot.None? || IsAbsolute(file)) ==> s.Canonical(file) == file
    ensures !SameTail(s.sourcePath, file) && s.userCrateRoot.Some? && !IsAbsolute(file) ==>
      s.Canonical(file) ==
        if s.files.present(Joined(s.userCrateRoot.value, file)) then Joined(s.userCrateRoot.value, file) else file
  {
    SameLogicalSourceIff(s.sourcePath, file);
    if s.userCrateRoot.Some? {
      JoinedEndsInFile(s.userCrateRoot.value, file);
    }
  }

  /** A path below a directory: the directory, one slash, and the path. */
  lemma JoinedIs(root: string, file: string)
    requires !IsAbsolute(file) && root != "" && root[|root| - 1] != '/'
    ensures Joined(root, file) == root + "/" + file && Joined(root + "/", file) == root + "/" + file
    ensures Joined(root, "/" + file) == "/" + file && Joined("", file) == file
  {
    assert (root + "/")[|root|] == '/';
    assert ("/" + file)[0] == '/';
  }

  /** The line table of a file is that at its recorded path, or, when that has no lines, that of the
      spelling beside the source, if there is such a directory. */
  lemma TableIsFound(s: Setup, file: string)
    ensures s.Table(file) ==
      if TextTable(s.files, s.Canonical(file)) != [] then TextTable(s.files, s.Canonical(file))
      else if s.sourceDir.Some? then TextTable(s.files, Joined(s.sourceDir.value, file))
      else []
  {
    TextTableIs(s, s.Canonical(file));
    if s.sourceDir.Some? {
      TextTableIs(s, Joined(s.sourceDir.value, file));
    }
  }

  lemma TextTableIs(s: Setup, path: string)
    ensures s.TableAt(path) == TextTable(s.files, path)
  {
  }

  /** The table of a path: none for names in angle brackets and for files that cannot be read. */
  function TextTable(files: FileSystem, path: string): seq<nat> {
    if |path| >= 2 && path[0] == '<' && path[|path| - 1] == '>' then []
    else
      match files.contents(path)
      case None => []
      case Some(bytes) => Lengths(Lines(bytes))
  }
}
