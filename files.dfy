/** The three file operations a patch can ask for — `create_file`, `delete_file` and `modify_file` —
    as transitions of a file system, together with the three-tier search and replace that
    `modify_file` performs on a file's text. */
module Files {
  import opened Wrappers
  import opened Text
  import opened Paths

  /** A file system: the text of every regular file, and the set of directories, by path. */
  datatype Fs = Fs(files: map<string, string>, dirs: set<string>)

  /** The paths for which `os.path.exists` holds. */
  function Present(fs: Fs): set<string> {
    fs.files.Keys + fs.dirs
  }

  /** The directories `os.makedirs(os.path.dirname(p))` needs: every prefix of `p` that ends just
      before one of its separators (the root `/` aside). */
  function ParentDirs(p: string): (ds: set<string>)
    ensures forall d :: d in ds ==> |d| < |p| && StartsWith(p, d)
  {
    set i: nat | 0 < i < |p| && p[i] == '/' :: p[..i]
  }

  /** The parents of a parent of `p` are parents of `p`. */
  lemma ParentDirsClosed(p: string, d: string)
    requires d in ParentDirs(p)
    ensures ParentDirs(d) <= ParentDirs(p)
  {
    var i: nat :| 0 < i < |p| && p[i] == '/' && d == p[..i];
    forall e | e in ParentDirs(d) ensures e in ParentDirs(p) {
      var j: nat :| 0 < j < |d| && d[j] == '/' && e == d[..j];
      assert p[j] == '/' && e == p[..j];
    }
  }

  /** A file system as a disk holds it: no path is both a file and a directory, the empty path names
      nothing, no file path ends in a separator, and the parent directories of every path exist. */
  predicate Wf(fs: Fs) {
    && fs.files.Keys !! fs.dirs
    && [] !in Present(fs)
    && (forall p :: p in fs.files ==> !EndsWithSlash(p))
    && forall p :: p in Present(fs) ==> ParentDirs(p) <= fs.dirs
  }

  /** What `os.path.dirname(p)` is empty for: a path with no separator at all. */
  predicate NoSeparator(p: string) {
    forall i :: 0 <= i < |p| ==> p[i] != '/'
  }

  /** `p` names a directory, so `open(p, 'w')` cannot create a file there. */
  predicate EndsWithSlash(p: string) {
    |p| > 0 && p[|p| - 1] == '/'
  }

  /** The outcome of one operation: whether it reports success, and the file system after it. */
  datatype Outcome = Outcome(ok: bool, fs: Fs)

  /** Where `resolve_abs_path` sends the patch path `raw`. */
  function Target(fs: Fs, roots: seq<string>, raw: string): Option<string> {
    Resolve(raw, roots, Present(fs))
  }

  /** `create_file(raw, content)`: resolve the path, create its parent directories, then write the
      file. A file already there is overwritten. `os.makedirs` fails when a parent is a regular file,
      or when there is no directory part at all; `open` fails on a directory. The parents are created
      before `open` is tried, so a failed `open` leaves them behind. */
  function CreateStep(fs: Fs, roots: seq<string>, raw: string, content: string): (r: Outcome)
    ensures r.ok ==> Target(fs, roots, raw).Some? && r.fs.files == fs.files[Target(fs, roots, raw).value := content]
    ensures !r.ok ==> r.fs.files == fs.files && fs.dirs <= r.fs.dirs
  {
    match Target(fs, roots, raw)
    case None => Outcome(false, fs)
    case Some(abs) =>
      if abs == [] || NoSeparator(abs) || !(ParentDirs(abs) !! fs.files.Keys) then Outcome(false, fs)
      else
        var dirs := fs.dirs + ParentDirs(abs);
        if abs in dirs || EndsWithSlash(abs) then Outcome(false, Fs(fs.files, dirs))
        else Outcome(true, Fs(fs.files[abs := content], dirs))
  }

  /** `delete_file(raw)`: resolve the path; it must exist, and `os.remove` refuses a directory. */
  function DeleteStep(fs: Fs, roots: seq<string>, raw: string): (r: Outcome)
    ensures r.ok ==> Target(fs, roots, raw).Some? && r.fs.files == fs.files - {Target(fs, roots, raw).value}
    ensures r.ok ==> r.fs.dirs == fs.dirs
    ensures !r.ok ==> r.fs == fs
  {
    match Target(fs, roots, raw)
    case None => Outcome(false, fs)
    case Some(abs) =>
      if abs == [] || abs !in Present(fs) || abs in fs.dirs then Outcome(false, fs)
      else Outcome(true, Fs(fs.files - {abs}, fs.dirs))
  }

  /** The search and replace of `modify_file`, trying in turn the search text as given, with its
      `\r\n` turned into `\n`, and that stripped of surrounding whitespace; each needle must be
      non-empty (see `RewriteAsWritten` for the unguarded original). `None` when no tier applies. */
  function Rewrite(content: string, search: string, rep: string): (r: Option<string>)
    ensures r.Some? <==> (search != [] && Contains(content, search))
                         || (NormalizeCrlf(search) != [] && Contains(NormalizeCrlf(content), NormalizeCrlf(search)))
                         || (Strip(NormalizeCrlf(search)) != []
                             && Contains(NormalizeCrlf(content), Strip(NormalizeCrlf(search))))
  {
    if search != [] && Contains(content, search) then Some(Replace(content, search, rep))
    else
      var content' := NormalizeCrlf(content);
      var search' := NormalizeCrlf(search);
      var stripped := Strip(search');
      if search' != [] && Contains(content', search') then Some(Replace(content', search', rep))
      else if stripped != [] && Contains(content', stripped) then Some(Replace(content', stripped, rep))
      else None
  }

  /** The search and replace of `modify_file` exactly as written: no tier checks that its needle is
      non-empty, and `"" in content` always holds. */
  function RewriteAsWritten(content: string, search: string, rep: string): (r: Option<string>)
    ensures search == [] ==> r == Some(Interleave(content, rep))
  {
    if Contains(content, search) then Some(Replace(content, search, rep))
    else
      var content' := NormalizeCrlf(content);
      var search' := NormalizeCrlf(search);
      var stripped := Strip(search');
      if Contains(content', search') then Some(Replace(content', search', rep))
      else if Contains(content', stripped) then Some(Replace(content', stripped, rep))
      else None
  }

  /** `modify_file(raw, search, rep)`: resolve the path, which must exist; read the file in text mode
      (`open` fails on a directory), rewrite it, and write the result back. */
  function ModifyStep(fs: Fs, roots: seq<string>, raw: string, search: string, rep: string): (r: Outcome)
    ensures r.ok ==> Target(fs, roots, raw).Some?
    ensures r.ok ==> var abs := Target(fs, roots, raw).value;
                     abs in fs.files && Rewrite(TextRead(fs.files[abs]), search, rep).Some?
                     && r.fs == Fs(fs.files[abs := Rewrite(TextRead(fs.files[abs]), search, rep).value], fs.dirs)
    ensures !r.ok ==> r.fs == fs
  {
    match Target(fs, roots, raw)
    case None => Outcome(false, fs)
    case Some(abs) =>
      if abs == [] || abs !in Present(fs) || abs in fs.dirs then Outcome(false, fs)
      else match Rewrite(TextRead(fs.files[abs]), search, rep)
        case None => Outcome(false, fs)
        case Some(text) => Outcome(true, Fs(fs.files[abs := text], fs.dirs))
  }

  /** Creating the parent directories of `abs`, and then the file `abs`, keeps a file system well
      formed, provided no parent is a regular file. */
  lemma MakeParentsWf(fs: Fs, abs: string, content: string)
    requires Wf(fs) && abs != [] && ParentDirs(abs) !! fs.files.Keys
    ensures Wf(Fs(fs.files, fs.dirs + ParentDirs(abs)))
    ensures abs !in fs.dirs + ParentDirs(abs) && !EndsWithSlash(abs) ==>
              Wf(Fs(fs.files[abs := content], fs.dirs + ParentDirs(abs)))
  {
    forall d | d in ParentDirs(abs) ensures ParentDirs(d) <= ParentDirs(abs) {
      ParentDirsClosed(abs, d);
    }
    assert abs !in ParentDirs(abs);
  }

  /** A creation keeps the file system well formed. */
  lemma CreatePreservesWf(fs: Fs, roots: seq<string>, raw: string, content: string)
    requires Wf(fs)
    ensures Wf(CreateStep(fs, roots, raw, content).fs)
  {
    var t := Target(fs, roots, raw);
    if t.Some? && t.value != [] && !NoSeparator(t.value) && ParentDirs(t.value) !! fs.files.Keys {
      MakeParentsWf(fs, t.value, content);
    }
  }

  /** A deletion keeps the file system well formed. */
  lemma DeletePreservesWf(fs: Fs, roots: seq<string>, raw: string)
    requires Wf(fs)
    ensures Wf(DeleteStep(fs, roots, raw).fs)
  {
    var d := DeleteStep(fs, roots, raw);
    assert Present(d.fs) <= Present(fs);
  }

  /** A modification keeps the file system well formed. */
  lemma ModifyPreservesWf(fs: Fs, roots: seq<string>, raw: string, search: string, rep: string)
    requires Wf(fs)
    ensures Wf(ModifyStep(fs, roots, raw, search, rep).fs)
  {
    var m := ModifyStep(fs, roots, raw, search, rep);
    assert Present(m.fs) == Present(fs);
  }

  /** When a deletion succeeds, exactly its target is gone. */
  lemma DeleteRemoves(fs: Fs, roots: seq<string>, raw: string)
    requires DeleteStep(fs, roots, raw).ok
    ensures var r := DeleteStep(fs, roots, raw); var t := Target(fs, roots, raw).value;
            t !in Present(r.fs) && Present(r.fs) == Present(fs) - {t}
  {
    var t := Target(fs, roots, raw).value;
    assert t !in fs.dirs;
  }

  /** On a well-formed file system a deletion succeeds exactly when the path resolves to a regular
      file, and the file is then gone. */
  lemma DeleteSucceedsIff(fs: Fs, roots: seq<string>, raw: string)
    requires Wf(fs)
    ensures var r := DeleteStep(fs, roots, raw); var t := Target(fs, roots, raw);
            (r.ok <==> t.Some? && t.value in fs.files)
            && (r.ok ==> t.value !in Present(r.fs) && Present(r.fs) == Present(fs) - {t.value})
  {
    var t := Target(fs, roots, raw);
    if t.Some? && t.value in fs.files {
      assert t.value != [] && t.value !in fs.dirs;
    }
    if DeleteStep(fs, roots, raw).ok {
      DeleteRemoves(fs, roots, raw);
    }
  }

  /** On a well-formed file system a modification succeeds exactly when the path resolves to a
      regular file and one of the search tiers applies to its text. */
  lemma ModifySucceedsIff(fs: Fs, roots: seq<string>, raw: string, search: string, rep: string)
    requires Wf(fs)
    ensures var r := ModifyStep(fs, roots, raw, search, rep); var t := Target(fs, roots, raw);
            r.ok <==> t.Some? && t.value in fs.files && Rewrite(TextRead(fs.files[t.value]), search, rep).Some?
  {
  }

  /** After a successful creation, the text stored for the file is what was written; every other
      file is as it was, and the path and its parent directories exist. */
  lemma CreateRoundTrip(fs: Fs, roots: seq<string>, raw: string, content: string)
    requires CreateStep(fs, roots, raw, content).ok
    ensures var r := CreateStep(fs, roots, raw, content); var abs := Target(fs, roots, raw).value;
            && abs in r.fs.files && r.fs.files[abs] == content
            && (forall q :: q != abs ==> (q in r.fs.files <==> q in fs.files))
            && (forall q :: q != abs && q in fs.files ==> r.fs.files[q] == fs.files[q])
            && Present(r.fs) == Present(fs) + {abs} + ParentDirs(abs)
  {
    var abs := Target(fs, roots, raw).value;
    assert CreateStep(fs, roots, raw, content).fs == Fs(fs.files[abs := content], fs.dirs + ParentDirs(abs));
    WriteFile(fs, abs, content, fs.dirs + ParentDirs(abs));
  }

  /** Writing `content` at `abs` and adding `ds` to the directories. */
  lemma WriteFile(fs: Fs, abs: string, content: string, ds: set<string>)
    requires fs.dirs <= ds
    ensures var r := Fs(fs.files[abs := content], ds);
            && abs in r.files && r.files[abs] == content
            && (forall q :: q != abs ==> (q in r.files <==> q in fs.files))
            && (forall q :: q != abs && q in fs.files ==> r.files[q] == fs.files[q])
            && Present(r) == Present(fs) + {abs} + ds
  {
  }

  /** An existing absolute regular file is always overwritten: its parents exist and none of them is a
      file. */
  lemma CreateOverwrites(fs: Fs, roots: seq<string>, raw: string, content: string)
    requires Wf(fs)
    requires Target(fs, roots, raw).Some? && IsAbs(Target(fs, roots, raw).value)
    requires Target(fs, roots, raw).value in fs.files
    ensures var r := CreateStep(fs, roots, raw, content); var abs := Target(fs, roots, raw).value;
            r.ok && r.fs == Fs(fs.files[abs := content], fs.dirs)
  {
    OverwriteAllowed(fs, Target(fs, roots, raw).value);
  }

  /** Every check `create_file` makes passes for an existing absolute regular file. */
  lemma OverwriteAllowed(fs: Fs, abs: string)
    requires Wf(fs) && IsAbs(abs) && abs in fs.files
    ensures abs != [] && !NoSeparator(abs) && ParentDirs(abs) !! fs.files.Keys
    ensures fs.dirs + ParentDirs(abs) == fs.dirs && abs !in fs.dirs && !EndsWithSlash(abs)
  {
    assert !NoSeparator(abs);
    assert ParentDirs(abs) <= fs.dirs;
  }

  /** A failed creation changes no file; at most it leaves behind parent directories of the target. */
  lemma CreateFailure(fs: Fs, roots: seq<string>, raw: string, content: string)
    requires !CreateStep(fs, roots, raw, content).ok
    ensures var r := CreateStep(fs, roots, raw, content);
            r.fs.files == fs.files
            && (r.fs.dirs == fs.dirs || r.fs.dirs == fs.dirs + ParentDirs(Target(fs, roots, raw).value))
  {
  }

  /** The search tiers on text read in text mode, stated with `split` and `join` rather than
      `replace`: each tier replaces every occurrence of its needle, and the `\r\n` normalisation of
      the text does nothing because reading already removed every `\r`. */
  lemma RewriteTiers(stored: string, search: string, rep: string)
    ensures var c := TextRead(stored); var s2 := NormalizeCrlf(search); var s3 := Strip(s2);
            Rewrite(c, search, rep)
            == if search != [] && Contains(c, search) then Some(JoinWith(Split(c, search), rep))
               else if s2 != [] && Contains(c, s2) then Some(JoinWith(Split(c, s2), rep))
               else if s3 != [] && Contains(c, s3) then Some(JoinWith(Split(c, s3), rep))
               else None
  {
    var c := TextRead(stored);
    NormalizeAfterRead(stored);
    var s2 := NormalizeCrlf(search);
    var s3 := Strip(s2);
    if search != [] {
      ReplaceIsSplitJoin(c, search, rep);
    }
    if s2 != [] {
      ReplaceIsSplitJoin(c, s2, rep);
    }
    if s3 != [] {
      ReplaceIsSplitJoin(c, s3, rep);
    }
  }

  /** Replacing a block that occurs by itself leaves the text as it was. */
  lemma RewriteBySelf(content: string, search: string)
    requires search != [] && Contains(content, search)
    ensures Rewrite(content, search, search) == Some(content)
  {
    ReplaceBySelf(content, search);
  }

  /** As long as some tier's needle is non-empty the guarded and the original search agree; they differ
      only for a search block that is empty or all whitespace. */
  lemma RewriteAgrees(content: string, search: string, rep: string)
    requires Strip(NormalizeCrlf(search)) != []
    ensures Rewrite(content, search, rep) == RewriteAsWritten(content, search, rep)
  {
    assert NormalizeCrlf(search) != [];
  }

  /** The original search inserts the replacement between every two characters when the search
      block is empty, or all whitespace and not found as it stands; the guarded search reports that no
      tier applies. */
  lemma EmptySearchInterleaves()
    ensures RewriteAsWritten("ab", "", "X") == Some("XaXbX")
    ensures RewriteAsWritten("ab", " ", "X") == Some("XaXbX")
    ensures Rewrite("ab", "", "X") == None
    ensures Rewrite("ab", " ", "X") == None
  {
    assert Interleave("ab", "X") == "XaXbX" by {
      assert "ab"[1..] == "b";
      assert "b"[1..] == "";
    }
    assert !Contains("ab", " ") by {
      ContainsIff("ab", " ");
      forall j: nat ensures !OccursAt("ab", " ", j) {
        if j + 1 <= 2 {
          assert "ab"[j..j + 1][0] == "ab"[j];
        }
      }
    }
    assert NormalizeCrlf(" ") == " ";
    assert NormalizeCrlf("ab") == "ab";
    assert Strip(" ") == "" by {
      assert SkipSpaces(" ", 0) == 1;
    }
  }
}
