/** Turning a path named in a patch into a path on disk: `resolve_abs_path` and the `posixpath`
    helpers it calls. The file system is seen here only through `present`, the set of paths for
    which `os.path.exists` holds. */
module Paths {
  import opened Wrappers
  import opened Text

  /** `path.strip().replace('\\', '/')` */
  function Normalize(raw: string): (p: string)
    ensures |p| == |Strip(raw)|
    ensures forall i :: 0 <= i < |p| ==> p[i] != '\\'
    ensures p != [] ==> !IsSpace(p[0]) && !IsSpace(p[|p| - 1])
  {
    var s := Strip(raw);
    ReplaceChar(s, '\\', '/');
    Replace(s, "\\", "/")
  }

  /** `os.path.isabs(p)` on a POSIX system. */
  predicate IsAbs(p: string) {
    |p| > 0 && p[0] == '/'
  }

  /** No character of `p` is a backslash. */
  predicate NoBackslash(p: string) {
    forall i :: 0 <= i < |p| ==> p[i] != '\\'
  }

  /** `os.path.join(a, b)` on a POSIX system: an absolute `b` replaces `a`; otherwise `b` is
      appended to `a`, with a `/` between them unless `a` is empty or already ends in one. */
  function Join(a: string, b: string): (r: string)
    ensures IsAbs(b) ==> r == b
    ensures !IsAbs(b) ==> StartsWith(r, a) && |a| + |b| <= |r| <= |a| + |b| + 1 && r[|r| - |b|..] == b
    ensures !IsAbs(b) && a != [] ==> r[|r| - |b| - 1] == '/'
    ensures !IsAbs(b) ==> (|r| == |a| + |b| + 1 <==> a != [] && a[|a| - 1] != '/')
    ensures IsAbs(a) ==> IsAbs(r)
  {
    if IsAbs(b) then b
    else if a == [] || a[|a| - 1] == '/' then a + b
    else a + "/" + b
  }

  /** Root `root` settles the search for `p`: the joined path exists, or `p` starts with the root. */
  predicate RootHit(p: string, root: string, present: set<string>) {
    Join(root, p) in present || StartsWith(p, root)
  }

  /** What the search returns at a root that settles it. */
  function RootAnswer(p: string, root: string, present: set<string>): string {
    if Join(root, p) in present then Join(root, p) else p
  }

  /** No root of `roots` settles the search for `p`. */
  predicate NoHit(p: string, roots: seq<string>, present: set<string>) {
    forall i :: 0 <= i < |roots| ==> !RootHit(p, roots[i], present)
  }

  /** Root `i` is the first of `roots` that settles the search for `p`. */
  predicate FirstHit(p: string, roots: seq<string>, present: set<string>, i: int) {
    && 0 <= i < |roots| && RootHit(p, roots[i], present)
    && forall j :: 0 <= j < i ==> !RootHit(p, roots[j], present)
  }

  /** Seen from the second root on, nothing settles the search when nothing did from the first. */
  lemma NoHitTail(p: string, roots: seq<string>, present: set<string>)
    requires roots != []
    ensures NoHit(p, roots, present) <==> !RootHit(p, roots[0], present) && NoHit(p, roots[1..], present)
  {
    assert forall i :: 1 <= i < |roots| ==> roots[i] == roots[1..][i - 1];
  }

  /** The first root to settle the search after a first root that does not is the first overall. */
  lemma FirstHitTail(p: string, roots: seq<string>, present: set<string>, i: int)
    requires roots != [] && !RootHit(p, roots[0], present)
    requires FirstHit(p, roots[1..], present, i)
    ensures FirstHit(p, roots, present, i + 1) && roots[i + 1] == roots[1..][i]
  {
    assert forall j :: 1 <= j < i + 1 ==> roots[j] == roots[1..][j - 1];
  }

  /** The loop over the roots in `resolve_abs_path`: the answer at the first root that settles the
      search, or nothing when none does. */
  function ScanRoots(p: string, roots: seq<string>, present: set<string>): (r: Option<string>)
    ensures r.None? <==> NoHit(p, roots, present)
    ensures r.Some? ==> exists i :: FirstHit(p, roots, present, i) && r.value == RootAnswer(p, roots[i], present)
  {
    if roots == [] then None
    else if RootHit(p, roots[0], present) then
      assert FirstHit(p, roots, present, 0);
      Some(RootAnswer(p, roots[0], present))
    else
      var r := ScanRoots(p, roots[1..], present);
      NoHitTail(p, roots, present);
      assert r.Some? ==> exists i :: FirstHit(p, roots, present, i) && r.value == RootAnswer(p, roots[i], present) by {
        if r.Some? {
          var i :| FirstHit(p, roots[1..], present, i) && r.value == RootAnswer(p, roots[1..][i], present);
          FirstHitTail(p, roots, present, i);
        }
      }
      r
  }

  /** Steps 1 to 4 of `resolve_abs_path` for the normalised path `p`, over the project roots `roots`
      (in tree order). */
  function Locate(p: string, roots: seq<string>, present: set<string>): (r: Option<string>)
    ensures IsAbs(p) && p in present ==> r == Some(p)
    ensures r.None? <==> roots == [] && !(IsAbs(p) && p in present)
  {
    if IsAbs(p) && p in present then Some(p)
    else match ScanRoots(p, roots, present)
      case Some(q) => Some(q)
      case None =>
        if |roots| > 0 then (if IsAbs(p) then Some(p) else Some(Join(roots[0], p)))
        else None
  }

  /** `resolve_abs_path(raw)`: an existing absolute path is returned as it is; nothing is returned
      only when there are no roots and the path is not an existing absolute one; with absolute roots
      every answer is absolute. */
  function Resolve(raw: string, roots: seq<string>, present: set<string>): (r: Option<string>)
    ensures var p := Normalize(raw); IsAbs(p) && p in present ==> r == Some(p)
    ensures var p := Normalize(raw); r.None? <==> roots == [] && !(IsAbs(p) && p in present)
    ensures AbsoluteRoots(roots) && r.Some? ==> IsAbs(r.value)
  {
    assert AbsoluteRoots(roots) ==> var r := Locate(Normalize(raw), roots, present); r.Some? ==> IsAbs(r.value) by {
      if AbsoluteRoots(roots) {
        LocateAbsolute(Normalize(raw), roots, present);
      }
    }
    Locate(Normalize(raw), roots, present)
  }

  /** Every root is an absolute directory path, as a folder picker yields. */
  predicate AbsoluteRoots(roots: seq<string>) {
    forall i :: 0 <= i < |roots| ==> IsAbs(roots[i])
  }

  /** The ways `resolve_abs_path` finds an answer, in the order it tries them: an existing absolute
      path as is; the answer at the first root that settles the search; and, when no root does, an
      absolute path as is or a relative one under the first root; with no roots, nothing. */
  lemma LocateCases(p: string, roots: seq<string>, present: set<string>)
    ensures var r := Locate(p, roots, present);
            || (IsAbs(p) && p in present && r == Some(p))
            || (!(IsAbs(p) && p in present)
                && exists i :: FirstHit(p, roots, present, i) && r == Some(RootAnswer(p, roots[i], present)))
            || (!(IsAbs(p) && p in present) && roots != [] && NoHit(p, roots, present)
                && r == Some(if IsAbs(p) then p else Join(roots[0], p)))
            || (!(IsAbs(p) && p in present) && roots == [] && r == None)
  {
    if !(IsAbs(p) && p in present) {
      var s := ScanRoots(p, roots, present);
      if s.Some? {
        var i :| FirstHit(p, roots, present, i) && s.value == RootAnswer(p, roots[i], present);
        assert Locate(p, roots, present) == Some(RootAnswer(p, roots[i], present));
      } else {
        assert NoHit(p, roots, present);
      }
    }
  }

  /** With absolute roots, what `resolve_abs_path` returns is the path itself or the path joined to
      one of the roots, and the latter only for a relative path. */
  lemma LocateShape(p: string, roots: seq<string>, present: set<string>)
    requires AbsoluteRoots(roots)
    requires Locate(p, roots, present).Some?
    ensures var q := Locate(p, roots, present).value;
            q == p || (!IsAbs(p) && exists i :: 0 <= i < |roots| && q == Join(roots[i], p))
  {
    var q := Locate(p, roots, present).value;
    if !(IsAbs(p) && p in present) {
      match ScanRoots(p, roots, present)
      case Some(a) =>
        var i :| FirstHit(p, roots, present, i) && a == RootAnswer(p, roots[i], present);
        if IsAbs(p) {
          assert Join(roots[i], p) == p;
        }
      case None =>
    }
  }

  /** With absolute roots, every path `resolve_abs_path` returns is absolute. */
  lemma LocateAbsolute(p: string, roots: seq<string>, present: set<string>)
    requires AbsoluteRoots(roots)
    ensures var r := Locate(p, roots, present); r.Some? ==> IsAbs(r.value)
  {
    var s := ScanRoots(p, roots, present);
    if !(IsAbs(p) && p in present) && s.Some? {
      var i :| FirstHit(p, roots, present, i) && s.value == RootAnswer(p, roots[i], present);
      assert IsAbs(roots[i]);
      if !(Join(roots[i], p) in present) {
        assert StartsWith(p, roots[i]);
        assert p[0] == roots[i][0];
      }
    }
  }

  /** With absolute roots, a relative path always resolves below one of the roots: it is joined to
      the first root under which it exists, or else to the first root. */
  lemma LocateRelative(p: string, roots: seq<string>, present: set<string>)
    requires AbsoluteRoots(roots) && roots != []
    requires !IsAbs(p)
    ensures var r := Locate(p, roots, present);
            exists i :: 0 <= i < |roots| && r == Some(Join(roots[i], p))
                        && (Join(roots[i], p) in present
                            || (i == 0 && forall j :: 0 <= j < |roots| ==> Join(roots[j], p) !in present))
                        && forall j :: 0 <= j < i ==> Join(roots[j], p) !in present
  {
    // A relative path starts with no absolute root, so a root settles the search only by existence.
    assert forall i :: 0 <= i < |roots| ==> (RootHit(p, roots[i], present) <==> Join(roots[i], p) in present) by {
      forall i | 0 <= i < |roots| ensures !StartsWith(p, roots[i]) {
        assert IsAbs(roots[i]);
        assert |roots[i]| > |p| || p[..|roots[i]|][0] != roots[i][0];
      }
    }
    match ScanRoots(p, roots, present)
    case Some(q) =>
    case None =>
      assert Locate(p, roots, present) == Some(Join(roots[0], p));
  }

  /** When the stripped text has no backslash, normalising is stripping. */
  lemma NormalizeOf(raw: string)
    requires NoBackslash(Strip(raw))
    ensures Normalize(raw) == Strip(raw)
  {
    var s := Strip(raw);
    ReplaceChar(s, '\\', '/');
    assert Replace(s, "\\", "/") == s;
  }

  /** A path with no backslash that neither starts nor ends with whitespace is its own normal form. */
  lemma NormalizeFixed(q: string)
    requires NoBackslash(q)
    requires q != [] ==> !IsSpace(q[0]) && !IsSpace(q[|q| - 1])
    ensures Normalize(q) == q
  {
    StripTrimmed(q);
    NormalizeOf(q);
  }

  /** A relative path in normal form, joined to an absolute root with no backslash, is in normal form:
      it starts with `/` and ends with the path, or with the separator when the path is empty. */
  lemma JoinNormal(root: string, p: string)
    requires IsAbs(root) && NoBackslash(root)
    requires !IsAbs(p) && NoBackslash(p)
    requires p != [] ==> !IsSpace(p[|p| - 1])
    ensures var q := Join(root, p); NoBackslash(q) && !IsSpace(q[0]) && !IsSpace(q[|q| - 1])
  {
    var q := Join(root, p);
    assert forall k :: 0 <= k < |root| ==> q[k] == root[k];
    assert forall k :: |q| - |p| <= k < |q| ==> q[k] == p[k - (|q| - |p|)];
    assert q[0] == '/';
    if p != [] {
      assert q[|q| - 1] == p[|p| - 1];
    }
  }

  /** An absolute path is kept as it is whenever it resolves at all: when it exists, or when there
      is a root to fall back on. */
  lemma LocateAbsolutePath(q: string, roots: seq<string>, present: set<string>)
    requires IsAbs(q) && (q in present || roots != [])
    ensures Locate(q, roots, present) == Some(q)
  {
    if q !in present {
      // Joining `q` to any root gives `q` back, which does not exist: a root settles the search only
      // by the prefix test, with `q` as its answer, and the fallback keeps an absolute path.
      match ScanRoots(q, roots, present)
      case Some(a) =>
        var i :| FirstHit(q, roots, present, i) && a == RootAnswer(q, roots[i], present);
        assert Join(roots[i], q) == q;
      case None =>
    }
  }

  /** A normal-form path, or a relative one joined to an absolute root free of backslashes, is in
      normal form. */
  lemma ShapeNormal(p: string, q: string, roots: seq<string>)
    requires AbsoluteRoots(roots)
    requires forall i :: 0 <= i < |roots| ==> NoBackslash(roots[i])
    requires NoBackslash(p) && (p != [] ==> !IsSpace(p[0]) && !IsSpace(p[|p| - 1]))
    requires q == p || (!IsAbs(p) && exists i :: 0 <= i < |roots| && q == Join(roots[i], p))
    ensures Normalize(q) == q
  {
    if q == p {
      NormalizeFixed(p);
    } else {
      var i :| 0 <= i < |roots| && q == Join(roots[i], p);
      JoinNormal(roots[i], p);
      NormalizeFixed(q);
    }
  }

  /** With absolute roots free of backslashes, a resolved normal-form path is in normal form. */
  lemma LocateNormal(p: string, roots: seq<string>, present: set<string>)
    requires AbsoluteRoots(roots)
    requires forall i :: 0 <= i < |roots| ==> NoBackslash(roots[i])
    requires NoBackslash(p) && (p != [] ==> !IsSpace(p[0]) && !IsSpace(p[|p| - 1]))
    requires Locate(p, roots, present).Some?
    ensures var q := Locate(p, roots, present).value; Normalize(q) == q
  {
    LocateShape(p, roots, present);
    ShapeNormal(p, Locate(p, roots, present).value, roots);
  }

  /** A path `resolve_abs_path` has produced resolves to itself again, when the roots are absolute and
      contain no backslash. */
  lemma ResolveFixpoint(raw: string, roots: seq<string>, present: set<string>)
    requires AbsoluteRoots(roots)
    requires forall i :: 0 <= i < |roots| ==> NoBackslash(roots[i])
    requires Resolve(raw, roots, present).Some?
    ensures var q := Resolve(raw, roots, present).value; Resolve(q, roots, present) == Some(q)
  {
    var p := Normalize(raw);
    var q := Locate(p, roots, present).value;
    LocateAbsolute(p, roots, present);
    LocateNormal(p, roots, present);
    LocateAbsolutePath(q, roots, present);
  }

  /** A relative path that exists under the first root is found there, whatever the other roots
      hold. */
  lemma LocateFirstRoot(p: string, roots: seq<string>, present: set<string>)
    requires !IsAbs(p) && roots != [] && Join(roots[0], p) in present
    ensures Locate(p, roots, present) == Some(Join(roots[0], p))
  {
    assert FirstHit(p, roots, present, 0);
  }

  /** A file named by a relative path that exists under the first root is taken from there, even
      when it exists under later roots too; padding around the name is dropped. */
  lemma ResolveFirstRootWins(raw: string, roots: seq<string>, present: set<string>)
    requires NoBackslash(Strip(raw)) && !IsAbs(Strip(raw))
    requires roots != [] && Join(roots[0], Strip(raw)) in present
    ensures Resolve(raw, roots, present) == Some(Join(roots[0], Strip(raw)))
  {
    NormalizeOf(raw);
    LocateFirstRoot(Strip(raw), roots, present);
  }

  /** Backslashes in a path are read as separators. */
  lemma NormalizeBackslash()
    ensures Normalize("src\\m.py") == "src/m.py"
  {
    var raw := "src\\m.py";
    StripTrimmed(raw);
    ReplaceChar(raw, '\\', '/');
    var p := Normalize(raw);
    assert |p| == 8;
    assert p[0] == 's' && p[1] == 'r' && p[2] == 'c' && p[3] == '/';
    assert p[4] == 'm' && p[5] == '.' && p[6] == 'p' && p[7] == 'y';
  }

  /** A relative path written with backslashes that exists under no root lands under the first root. */
  lemma ResolveBackslashFallback()
    ensures Resolve("src\\m.py", ["/a", "/b"], {}) == Some("/a/src/m.py")
  {
    NormalizeBackslash();
    var p := "src/m.py";
    assert Join("/a", p) == "/a/src/m.py";
    assert !RootHit(p, "/a", {}) && !RootHit(p, "/b", {});
    assert ScanRoots(p, ["/a", "/b"], {}) == None;
  }

  /** Without roots only an existing absolute path resolves. */
  lemma ResolveNoRoots()
    ensures Resolve("x.txt", [], {"x.txt"}) == None
  {
    NormalizeFixed("x.txt");
  }
}
