/** The pattern a new file name must match before a rename is attempted:
    `^(?:[-A-Za-z0-9_]+|\.\.)(?:\/(?:[-A-Za-z0-9_]+|\.\.))*(?:\.[-A-Za-z0-9_]+)?$`
    — pieces separated by '/', each a word or "..", the whole optionally
    ending in one extension. */
module RenamePattern {
  import opened Wrappers
  import opened PosixPath

  /** `[-A-Za-z0-9_]` */
  predicate WordChar(c: char)
  {
    c == '-' || ('A' <= c <= 'Z') || ('a' <= c <= 'z') || ('0' <= c <= '9') || c == '_'
  }

  /** `[-A-Za-z0-9_]+` */
  predicate Word(s: string)
  {
    |s| > 0 && forall i :: 0 <= i < |s| ==> WordChar(s[i])
  }

  /** `[-A-Za-z0-9_]+|\.\.` */
  predicate Piece(s: string)
  {
    Word(s) || s == ".."
  }

  /** The position of the last '.' in `s`. */
  function LastDot(s: string): (r: Option<nat>)
    ensures r.None? ==> '.' !in s
    ensures r.Some? ==> r.value < |s| && s[r.value] == '.' && '.' !in s[r.value + 1..]
    decreases |s|
  {
    if |s| == 0 then None
    else if s[|s| - 1] == '.' then Some(|s| - 1)
    else
      var r := LastDot(s[..|s| - 1]);
      assert s == s[..|s| - 1] + [s[|s| - 1]];
      r
  }

  /** The last piece, which may carry the extension `\.[-A-Za-z0-9_]+`:
      since a word holds no '.', the extension starts at the last dot. */
  predicate LastPiece(s: string)
  {
    || Piece(s)
    || (LastDot(s).Some? && Piece(s[..LastDot(s).value]) && Word(s[LastDot(s).value + 1..]))
  }

  /** The pattern test, read piece by piece. */
  predicate Matches(name: string)
  {
    var ps := Split(name);
    (forall i :: 0 <= i < |ps| - 1 ==> Piece(ps[i])) && LastPiece(ps[|ps| - 1])
  }

  /* ---------------- the language of the pattern ---------------- */

  /** `(?:\.[-A-Za-z0-9_]+)?` */
  predicate Extension(ext: string)
  {
    ext == "" || (|ext| > 1 && ext[0] == '.' && Word(ext[1..]))
  }

  /** `name` is spelled by the pattern as these pieces joined by '/' and
      then this extension. */
  predicate Spelled(name: string, pieces: seq<string>, ext: string)
  {
    && |pieces| > 0
    && (forall i :: 0 <= i < |pieces| ==> Piece(pieces[i]))
    && Extension(ext)
    && name == JoinStr(pieces) + ext
  }

  lemma PieceSlashFree(s: string)
    requires Piece(s)
    ensures SlashFree(s) && ('.' !in s || s == "..")
  {
  }

  /** The piece-by-piece test accepts exactly the names the pattern
      describes. */
  lemma MatchesExactly(name: string)
    ensures Matches(name) <==> exists pieces, ext :: Spelled(name, pieces, ext)
  {
    if Matches(name) {
      MatchedIsSpelled(name);
    }
    if exists pieces, ext :: Spelled(name, pieces, ext) {
      var pieces, ext :| Spelled(name, pieces, ext);
      SpelledMatches(name, pieces, ext);
    }
  }

  /** A name that passes the test is spelled by the pattern: its pieces,
      with the extension cut off the last one at its last dot. */
  lemma MatchedIsSpelled(name: string)
    requires Matches(name)
    ensures exists pieces, ext :: Spelled(name, pieces, ext)
  {
    var ps := Split(name);
    var last := ps[|ps| - 1];
    JoinSplit(name);
    var base, ext := LastPieceSplit(last);
    SpelledByCut(name, ps, base, ext);
    assert Spelled(name, ps[..|ps| - 1] + [base], ext);
  }

  /** The last piece is a piece followed by an optional extension. */
  lemma LastPieceSplit(last: string) returns (base: string, ext: string)
    requires LastPiece(last)
    ensures Piece(base) && Extension(ext) && base + ext == last
  {
    if Piece(last) {
      base, ext := last, "";
      assert base + ext == last;
    } else {
      var j := LastDot(last).value;
      LastPieceCut(last);
      base, ext := last[..j], last[j..];
    }
  }


  /** A last piece that is not a plain piece is a piece followed by an
      extension, cut at its last dot. */
  lemma LastPieceCut(last: string)
    requires LastPiece(last) && !Piece(last)
    ensures var j := LastDot(last).value;
      Piece(last[..j]) && Extension(last[j..]) && last[..j] + last[j..] == last
  {
    var j := LastDot(last).value;
    CutAt(last, j);
    assert last[j..][1..] == last[j + 1..];
  }

  lemma SpelledByCut(name: string, ps: seq<string>, base: string, ext: string)
    requires |ps| > 0 && JoinStr(ps) == name
    requires forall i :: 0 <= i < |ps| - 1 ==> Piece(ps[i])
    requires Piece(base) && Extension(ext) && base + ext == ps[|ps| - 1]
    ensures Spelled(name, ps[..|ps| - 1] + [base], ext)
  {
    PiecesWithLast(ps[..|ps| - 1], base);
    JoinCut(ps, base, ext);
  }

  lemma PiecesWithLast(init: seq<string>, base: string)
    requires forall i :: 0 <= i < |init| ==> Piece(init[i])
    requires Piece(base)
    ensures forall i :: 0 <= i < |init + [base]| ==> Piece((init + [base])[i])
  {
  }

  lemma JoinCut(ps: seq<string>, base: string, ext: string)
    requires |ps| > 0 && base + ext == ps[|ps| - 1]
    ensures JoinStr(ps[..|ps| - 1] + [base]) + ext == JoinStr(ps)
  {
    JoinStrAppendLast(ps[..|ps| - 1], base, ext);
    assert ps[..|ps| - 1] + [base + ext] == ps;
  }

  lemma CutAt(s: string, j: nat)
    requires j <= |s|
    ensures s[..j] + s[j..] == s
  {
  }

  /** Every name the pattern describes passes the test. */
  lemma SpelledMatches(name: string, pieces: seq<string>, ext: string)
    requires Spelled(name, pieces, ext)
    ensures Matches(name)
  {
    var n := |pieces|;
    var p := pieces[n - 1];
    var parts := pieces[..n - 1] + [p + ext];
    JoinCut(parts, p, ext);
    assert parts[..n - 1] + [p] == pieces;
    PartsSlashFree(pieces, ext);
    SplitJoin(parts);
    LastPieceOf(p, ext);
    assert forall i :: 0 <= i < n - 1 ==> parts[i] == pieces[i];
  }

  /** The pieces, the last one with the extension, hold no '/'. */
  lemma PartsSlashFree(pieces: seq<string>, ext: string)
    requires |pieces| > 0 && (forall i :: 0 <= i < |pieces| ==> Piece(pieces[i])) && Extension(ext)
    ensures var parts := pieces[..|pieces| - 1] + [pieces[|pieces| - 1] + ext];
      forall i :: 0 <= i < |parts| ==> SlashFree(parts[i])
  {
    var n := |pieces|;
    var p := pieces[n - 1];
    var parts := pieces[..n - 1] + [p + ext];
    forall i | 0 <= i < |parts|
      ensures SlashFree(parts[i])
    {
      if i < n - 1 {
        PieceSlashFree(pieces[i]);
      } else {
        PieceSlashFree(p);
        assert forall c :: c in p + ext ==> c in p || c in ext;
        if ext != "" {
          assert forall c :: c in ext ==> c == '.' || c in ext[1..];
        }
      }
    }
  }

  /** A piece followed by an extension is a last piece. */
  lemma LastPieceOf(p: string, ext: string)
    requires Piece(p) && Extension(ext)
    ensures LastPiece(p + ext)
  {
    if ext == "" {
      assert p + ext == p;
    } else {
      var last := p + ext;
      assert last[..|p|] == p;
      assert last[|p| + 1..] == ext[1..];
      ExtensionAtLastDot(p, ext);
    }
  }

  /** In a piece followed by an extension, the last dot starts the
      extension. */
  lemma ExtensionAtLastDot(p: string, ext: string)
    requires Piece(p) && Extension(ext) && ext != ""
    ensures LastDot(p + ext) == Some(|p|)
  {
    var s := p + ext;
    assert s[|p|] == '.';
  }

  /* ---------------- what an accepted name looks like ---------------- */

  /** Every character of a join is '/' or a character of one of the
      pieces. */
  lemma {:induction false} JoinStrChars(parts: seq<string>, k: nat)
    requires k < |JoinStr(parts)|
    ensures JoinStr(parts)[k] == '/' || exists i :: 0 <= i < |parts| && JoinStr(parts)[k] in parts[i]
    decreases |parts|
  {
    if |parts| == 1 {
      assert JoinStr(parts)[k] in parts[0];
    } else if |parts| > 1 {
      var j := parts[0] + "/" + JoinStr(parts[1..]);
      if k < |parts[0]| {
        assert j[k] in parts[0];
      } else if k > |parts[0]| {
        JoinStrChars(parts[1..], k - |parts[0]| - 1);
        assert j[k] == JoinStr(parts[1..])[k - |parts[0]| - 1];
        if j[k] != '/' {
          var i :| 0 <= i < |parts[1..]| && j[k] in parts[1..][i];
          assert j[k] in parts[i + 1];
        }
      }
    }
  }

  /** An accepted name is non-empty, does not start with '/', and uses only
      `[-A-Za-z0-9_./]`. */
  lemma AcceptedShape(name: string)
    requires Matches(name)
    ensures |name| > 0 && name[0] != '/'
    ensures forall k :: 0 <= k < |name| ==> WordChar(name[k]) || name[k] == '.' || name[k] == '/'
  {
    MatchesExactly(name);
    var pieces, ext :| Spelled(name, pieces, ext);
    var j := JoinStr(pieces);
    assert |pieces[0]| > 0;
    JoinStrHead(pieces);
    assert name[0] == j[0] == pieces[0][0];
    forall k | 0 <= k < |name|
      ensures WordChar(name[k]) || name[k] == '.' || name[k] == '/'
    {
      if k < |j| {
        JoinStrChars(pieces, k);
        assert name[k] == j[k];
      } else {
        assert name[k] == ext[k - |j|];
        if k - |j| > 0 {
          assert ext[k - |j|] == ext[1..][k - |j| - 1];
        }
      }
    }
  }

  /** The empty name does not match. */
  lemma RejectsEmpty()
    ensures !Matches("")
  {
    assert Split("") == [""];
  }

  /** The pattern does not keep a rename inside the working directory:
      pieces may be "..", so "../../etc/passwd" is accepted. */
  lemma AdmitsParentEscape()
    ensures Matches("../../etc/passwd")
  {
    var pieces := ["..", "..", "etc", "passwd"];
    var name := JoinStr(pieces);
    assert name == pieces[0] + "/" + JoinStr(pieces[1..]);
    assert JoinStr(pieces[1..]) == pieces[1] + "/" + JoinStr(pieces[2..]);
    assert JoinStr(pieces[2..]) == pieces[2] + "/" + JoinStr(pieces[3..]);
    assert pieces[3..] == ["passwd"];
    assert name == "../../etc/passwd";
    assert Word(pieces[2]) && Word(pieces[3]);
    assert name + "" == name;
    SpelledMatches(name, pieces, "");
  }

  /** A name with a dot inside a piece other than the last is refused. */
  lemma RejectsInnerExtension()
    ensures !Matches("a.b/c")
  {
    var ps := Split("a.b/c");
    assert ps == ["a.b", "c"] by {
      SplitConcat("a.b", "c");
      SplitSlashFree("a.b");
      SplitSlashFree("c");
      assert "a.b" + "/" + "c" == "a.b/c";
    }
    assert !WordChar(ps[0][1]);
    assert !Piece(ps[0]);
  }
}
