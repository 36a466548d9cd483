/** `paste_and_apply`: the pasted response is scanned three times, once per pattern, and every
    match is applied in turn — all creations first, then all deletions, then all modifications —
    each adding one line to the change log that the result dialog shows. */
module Apply {
  import opened Wrappers
  import opened Text
  import opened Scan
  import opened Paths
  import opened Files

  /** The kind of operation a log line reports. */
  datatype Op = Created | Deleted | Modified

  /** One line of `changes_log`: the operation, whether it succeeded, and the stripped path. */
  datatype Entry = Entry(op: Op, ok: bool, path: string)

  /** The operation a match asks for. */
  function OpOf(f: Found): Op {
    match f
    case CreateMatch(_, _, _, _) => Created
    case DeleteMatch(_, _, _) => Deleted
    case ModifyMatch(_, _, _, _, _) => Modified
  }

  /** The words that open the log line of a success. */
  function Done(op: Op): string {
    match op
    case Created => "Created: "
    case Deleted => "Deleted: "
    case Modified => "Modified: "
  }

  /** The words that open the log line of a failure, after `Failed to `. */
  function NotDone(op: Op): string {
    match op
    case Created => "create: "
    case Deleted => "delete: "
    case Modified => "modify: "
  }

  /** The words that open a log line: `Failed to ` exactly for a failure, and never an `N`. */
  function Verb(op: Op, ok: bool): (v: string)
    ensures |v| > 0 && v[0] != 'N' && '\n' !in v
    ensures ok <==> !StartsWith(v, "Failed to ")
  {
    if ok then
      var v := Done(op);
      assert v[0] != 'F';
      v
    else
      var v := "Failed to " + NotDone(op);
      assert v[..10] == "Failed to ";
      v
  }

  /** The text of a log line: it ends with the path, it starts with `Failed to ` exactly when the
      operation failed, and it never starts with an `N`. */
  function Message(e: Entry): (m: string)
    ensures |m| >= |e.path| && m[|m| - |e.path|..] == e.path
    ensures e.ok <==> !StartsWith(m, "Failed to ")
    ensures |m| > 0 && m[0] != 'N'
    ensures '\n' !in e.path ==> '\n' !in m
  {
    var v := Verb(e.op, e.ok);
    var m := v + e.path;
    assert m[|m| - |e.path|..] == e.path;
    assert |v| >= 10 ==> m[..10] == v[..10];
    m
  }

  /** Two different openings part at the first character, or, for two failures, at the first
      character after `Failed to `. */
  lemma VerbsDiffer(o1: Op, k1: bool, o2: Op, k2: bool)
    requires o1 != o2 || k1 != k2
    ensures var i := if !k1 && !k2 then 10 else 0;
            i < |Verb(o1, k1)| && i < |Verb(o2, k2)| && Verb(o1, k1)[i] != Verb(o2, k2)[i]
  {
  }

  /** A log line names its entry: the operation, its outcome and the path can be read back from
      the line, so two lines are equal exactly when their entries are. */
  lemma MessageNamesEntry(e1: Entry, e2: Entry)
    ensures Message(e1) == Message(e2) <==> e1 == e2
  {
    var v1, v2 := Verb(e1.op, e1.ok), Verb(e2.op, e2.ok);
    if Message(e1) == Message(e2) {
      assert Message(e1) == v1 + e1.path && Message(e2) == v2 + e2.path;
      if e1.op != e2.op || e1.ok != e2.ok {
        VerbsDiffer(e1.op, e1.ok, e2.op, e2.ok);
        assert false;
      }
      assert v1 == v2;
      assert e1.path == Message(e1)[|v1|..] == Message(e2)[|v2|..] == e2.path;
    }
  }

  /** The message the result dialog shows when none of the three patterns matched the clipboard text. */
  const NoPatterns: string := "No valid patterns " + "found in clipboard content."

  /** The log lines, in order. */
  function Messages(log: seq<Entry>): (ms: seq<string>)
    ensures |ms| == |log| && forall k :: 0 <= k < |log| ==> ms[k] == Message(log[k])
  {
    if log == [] then [] else [Message(log[0])] + Messages(log[1..])
  }

  /** A join begins with its first part. */
  lemma {:induction false} JoinStartsWithFirst(parts: seq<string>, sep: string)
    requires |parts| >= 1
    ensures StartsWith(JoinWith(parts, sep), parts[0])
  {
    if |parts| > 1 {
      var j := JoinWith(parts, sep);
      assert j == parts[0] + sep + JoinWith(parts[1..], sep);
      assert j[..|parts[0]|] == parts[0];
    }
  }

  /** The text of the result dialog: the log lines joined by newlines, or `NoPatterns` for an empty
      log. The two cannot be confused: no log line starts the way `NoPatterns` does. When no path
      holds a newline, the dialog's lines are the log lines, one per entry. */
  function Report(log: seq<Entry>): (r: string)
    ensures r == NoPatterns <==> log == []
    ensures log != [] ==> StartsWith(r, Message(log[0]))
    ensures log != [] && (forall k :: 0 <= k < |log| ==> '\n' !in log[k].path) ==> Split(r, "\n") == Messages(log)
  {
    if log == [] then NoPatterns
    else
      var r := JoinWith(Messages(log), "\n");
      JoinStartsWithFirst(Messages(log), "\n");
      assert (forall k :: 0 <= k < |log| ==> '\n' !in log[k].path) ==> Split(r, "\n") == Messages(log) by {
        if forall k :: 0 <= k < |log| ==> '\n' !in log[k].path {
          JoinSplitRoundTrip(Messages(log), '\n');
        }
      }
      assert r[0] == Message(log[0])[0];
      assert NoPatterns[0] == 'N';
      r
  }

  /** What `paste_and_apply` ends with: an error for an empty clipboard, or the result dialog. */
  datatype Dialog = ErrorDialog(text: string) | ResultDialog(text: string)

  /** Applying one match: the kind of operation follows from the pattern, and the path in the log is
      the captured path stripped. */
  function ApplyMatch(fs: Fs, roots: seq<string>, f: Found): (r: (Outcome, Entry))
    ensures r.1 == Entry(OpOf(f), r.0.ok, Strip(f.path))
    ensures !r.0.ok && !f.CreateMatch? ==> r.0.fs == fs
  {
    var path := Strip(f.path);
    match f
    case CreateMatch(_, _, _, content) =>
      var o := CreateStep(fs, roots, path, content);
      (o, Entry(Created, o.ok, path))
    case DeleteMatch(_, _, _) =>
      var o := DeleteStep(fs, roots, path);
      (o, Entry(Deleted, o.ok, path))
    case ModifyMatch(_, _, _, search, replace) =>
      var o := ModifyStep(fs, roots, path, search, replace);
      (o, Entry(Modified, o.ok, path))
  }

  /** Applying matches one after another from `fs`: the final file system and the log, one entry per
      match. */
  function ApplyAll(fs: Fs, roots: seq<string>, ms: seq<Found>): (r: (Fs, seq<Entry>))
    decreases |ms|
    ensures |r.1| == |ms|
  {
    if ms == [] then (fs, [])
    else
      var before := ApplyAll(fs, roots, ms[..|ms| - 1]);
      var step := ApplyMatch(before.0, roots, ms[|ms| - 1]);
      (step.0.fs, before.1 + [step.1])
  }

  /** `log` names, entry by entry, the operation and stripped path of the matches `ms`. */
  predicate Names(log: seq<Entry>, ms: seq<Found>) {
    |log| == |ms| && forall k :: 0 <= k < |ms| ==> log[k].op == OpOf(ms[k]) && log[k].path == Strip(ms[k].path)
  }

  /** One more match with its entry keeps a log naming its matches. */
  lemma NamesSnoc(log: seq<Entry>, ms: seq<Found>, e: Entry, f: Found)
    requires Names(log, ms)
    requires e.op == OpOf(f) && e.path == Strip(f.path)
    ensures Names(log + [e], ms + [f])
  {
    assert forall k :: 0 <= k < |ms| ==> (log + [e])[k] == log[k] && (ms + [f])[k] == ms[k];
  }

  /** Each entry of the log names its own match's operation and stripped path. */
  lemma {:induction false} ApplyAllLog(fs: Fs, roots: seq<string>, ms: seq<Found>)
    decreases |ms|
    ensures Names(ApplyAll(fs, roots, ms).1, ms)
  {
    if ms != [] {
      var init := ms[..|ms| - 1];
      var last := ms[|ms| - 1];
      assert init + [last] == ms;
      ApplyAllLog(fs, roots, init);
      ApplyAllSnoc(fs, roots, init, last);
      var before := ApplyAll(fs, roots, init);
      var step := ApplyMatch(before.0, roots, last);
      NamesSnoc(before.1, init, step.1, last);
    }
  }

  /** Every match in the pasted text, in the order they are applied. */
  function AllMatches(response: string): seq<Found> {
    Matches(NewFilePattern, response) + Matches(DeletePattern, response) + Matches(ModPattern, response)
  }

  /** `paste_and_apply` on the clipboard text `response`: the new file system and the dialog shown. */
  function PasteOutcome(fs: Fs, roots: seq<string>, response: string): (r: (Fs, Dialog))
    ensures r.1.ErrorDialog? <==> response == []
    ensures response == [] ==> r.0 == fs && r.1.text == "Clipboard is empty."
    ensures response != [] ==> (r.1.text == NoPatterns <==> AllMatches(response) == [])
    ensures Wf(fs) ==> Wf(r.0)
  {
    if response == [] then (fs, ErrorDialog("Clipboard is empty."))
    else
      var a := ApplyAll(fs, roots, AllMatches(response));
      assert Wf(fs) ==> Wf(a.0) by {
        if Wf(fs) {
          ApplyAllPreservesWf(fs, roots, AllMatches(response));
        }
      }
      (a.0, ResultDialog(Report(a.1)))
  }

  /** `log` has one line per match of `c + d + m`, in that order: the creations `c`, the deletions `d`,
      then the modifications `m`, each line naming its operation and the match's stripped path. */
  predicate PhasedLog(log: seq<Entry>, c: seq<Found>, d: seq<Found>, m: seq<Found>) {
    && |log| == |c| + |d| + |m|
    && (forall k :: 0 <= k < |c| ==> log[k].op == Created && log[k].path == Strip(c[k].path))
    && (forall k :: 0 <= k < |d| ==> log[|c| + k].op == Deleted && log[|c| + k].path == Strip(d[k].path))
    && (forall k :: 0 <= k < |m| ==>
          log[|c| + |d| + k].op == Modified && log[|c| + |d| + k].path == Strip(m[k].path))
  }

  /** A log with one line per match of `c + d + m`, naming each match's operation and stripped path,
      is phased when the matches are. */
  lemma PhasedFromMatches(log: seq<Entry>, c: seq<Found>, d: seq<Found>, m: seq<Found>)
    requires forall k :: 0 <= k < |c| ==> OpOf(c[k]) == Created
    requires forall k :: 0 <= k < |d| ==> OpOf(d[k]) == Deleted
    requires forall k :: 0 <= k < |m| ==> OpOf(m[k]) == Modified
    requires Names(log, c + d + m)
    ensures PhasedLog(log, c, d, m)
  {
    var all := c + d + m;
    assert forall k :: 0 <= k < |c| ==> all[k] == c[k];
    assert forall k :: 0 <= k < |d| ==> all[|c| + k] == d[k];
    assert forall k :: 0 <= k < |m| ==> all[|c| + |d| + k] == m[k];
  }

  /** Applying what the three scans found, creations, then deletions, then modifications, logs them
      in that order. */
  lemma LogInPhases(fs: Fs, roots: seq<string>, c: seq<Found>, d: seq<Found>, m: seq<Found>)
    requires forall k :: 0 <= k < |c| ==> Fits(NewFilePattern, c[k])
    requires forall k :: 0 <= k < |d| ==> Fits(DeletePattern, d[k])
    requires forall k :: 0 <= k < |m| ==> Fits(ModPattern, m[k])
    ensures PhasedLog(ApplyAll(fs, roots, c + d + m).1, c, d, m)
  {
    ApplyAllLog(fs, roots, c + d + m);
    PhasedFromMatches(ApplyAll(fs, roots, c + d + m).1, c, d, m);
  }

  /** The log of a paste: one line per match, all creations first, then all deletions, then all
      modifications, each naming the stripped path its match captured. */
  lemma PasteLog(fs: Fs, roots: seq<string>, response: string)
    ensures PhasedLog(ApplyAll(fs, roots, AllMatches(response)).1, Matches(NewFilePattern, response),
                      Matches(DeletePattern, response), Matches(ModPattern, response))
  {
    LogInPhases(fs, roots, Matches(NewFilePattern, response), Matches(DeletePattern, response),
                Matches(ModPattern, response));
  }

  /** The result dialog says that no pattern was found exactly when none of the three patterns
      matches anywhere in the pasted text. */
  lemma PasteReport(fs: Fs, roots: seq<string>, response: string)
    requires response != []
    ensures PasteOutcome(fs, roots, response).1 == ResultDialog(NoPatterns)
            <==> && Absent(NewFilePattern, response, 0, |response| + 1)
                 && Absent(DeletePattern, response, 0, |response| + 1)
                 && Absent(ModPattern, response, 0, |response| + 1)
  {
    PasteLog(fs, roots, response);
    MatchesEmptyIff(NewFilePattern, response);
    MatchesEmptyIff(DeletePattern, response);
    MatchesEmptyIff(ModPattern, response);
  }

  /** No path of three lists of single-line matches, put together, holds a newline. */
  lemma ConcatSingleLine(c: seq<Found>, d: seq<Found>, m: seq<Found>, k: nat)
    requires forall i :: 0 <= i < |c| ==> SingleLine(c[i].path)
    requires forall i :: 0 <= i < |d| ==> SingleLine(d[i].path)
    requires forall i :: 0 <= i < |m| ==> SingleLine(m[i].path)
    requires k < |c + d + m|
    ensures '\n' !in (c + d + m)[k].path
  {
    var f := (c + d + m)[k];
    if k < |c| {
      assert f == c[k];
    } else if k < |c| + |d| {
      assert f == d[k - |c|];
    } else {
      assert f == m[k - |c| - |d|];
    }
  }

  /** No path captured by the three scans holds a newline. */
  lemma AllMatchesSingleLine(response: string, k: nat)
    requires k < |AllMatches(response)|
    ensures '\n' !in AllMatches(response)[k].path
  {
    var c := Matches(NewFilePattern, response);
    var d := Matches(DeletePattern, response);
    var m := Matches(ModPattern, response);
    assert forall i :: 0 <= i < |c| ==> Fits(NewFilePattern, c[i]);
    assert forall i :: 0 <= i < |d| ==> Fits(DeletePattern, d[i]);
    assert forall i :: 0 <= i < |m| ==> Fits(ModPattern, m[i]);
    ConcatSingleLine(c, d, m, k);
  }

  /** When something matched, the result dialog shows the log, one line per entry in the order the
      matches were applied. */
  lemma PasteDialogLines(fs: Fs, roots: seq<string>, response: string)
    requires response != [] && AllMatches(response) != []
    ensures var log := ApplyAll(fs, roots, AllMatches(response)).1;
            PasteOutcome(fs, roots, response).1.ResultDialog?
            && Split(PasteOutcome(fs, roots, response).1.text, "\n") == Messages(log)
  {
    var ms := AllMatches(response);
    var log := ApplyAll(fs, roots, ms).1;
    ApplyAllLog(fs, roots, ms);
    forall k | 0 <= k < |log| ensures '\n' !in log[k].path {
      AllMatchesSingleLine(response, k);
      StripKeepsOut(ms[k].path, '\n');
    }
  }

  /** Applying matches keeps the file system well formed. */
  lemma {:induction false} ApplyAllPreservesWf(fs: Fs, roots: seq<string>, ms: seq<Found>)
    requires Wf(fs)
    decreases |ms|
    ensures Wf(ApplyAll(fs, roots, ms).0)
  {
    if ms != [] {
      ApplyAllPreservesWf(fs, roots, ms[..|ms| - 1]);
      var before := ApplyAll(fs, roots, ms[..|ms| - 1]);
      var last := ms[|ms| - 1];
      match last
      case CreateMatch(_, _, _, content) => CreatePreservesWf(before.0, roots, Strip(last.path), content);
      case DeleteMatch(_, _, _) => DeletePreservesWf(before.0, roots, Strip(last.path));
      case ModifyMatch(_, _, _, search, replace) =>
        ModifyPreservesWf(before.0, roots, Strip(last.path), search, replace);
    }
  }

  /** Applying a prefix and then one more match is applying the longer prefix. */
  lemma ApplyAllSnoc(fs: Fs, roots: seq<string>, ms: seq<Found>, f: Found)
    ensures var before := ApplyAll(fs, roots, ms);
            var step := ApplyMatch(before.0, roots, f);
            ApplyAll(fs, roots, ms + [f]) == (step.0.fs, before.1 + [step.1])
  {
    assert (ms + [f])[..|ms|] == ms;
  }

  /** The first and last prefixes of `ms`, after `done`, that the loops of `paste_and_apply` step
      through. */
  lemma PrefixEnds<T>(done: seq<T>, ms: seq<T>)
    ensures done + ms[..0] == done && done + ms[..|ms|] == done + ms
  {
    assert ms[..|ms|] == ms;
  }

  /** Extending a prefix of `ms` by one element, after `done`. */
  lemma PrefixSnoc<T>(done: seq<T>, ms: seq<T>, i: nat)
    requires i < |ms|
    ensures done + ms[..i + 1] == (done + ms[..i]) + [ms[i]]
  {
    assert ms[..i + 1] == ms[..i] + [ms[i]];
  }

  /** The project tree and the disk under it. The roots are fixed while a paste is applied; the
      files and directories change. */
  class Workspace {
    const roots: seq<string>
    var files: map<string, string>
    var dirs: set<string>

    /** The disk as a value. */
    function State(): Fs
      reads this
    {
      Fs(files, dirs)
    }

    /** The roots are absolute, as a folder picker yields them, and the disk is well formed. */
    ghost predicate Valid()
      reads this
    {
      AbsoluteRoots(roots) && Wf(State())
    }

    constructor (roots: seq<string>, fs: Fs)
      requires AbsoluteRoots(roots) && Wf(fs)
      ensures Valid() && this.roots == roots && State() == fs
    {
      this.roots := roots;
      files := fs.files;
      dirs := fs.dirs;
    }

    /** `os.path.exists(p)` */
    function Exists(p: string): (b: bool)
      reads this
      ensures b <==> p in Present(State())
    {
      p in files || p in dirs
    }

    /** `resolve_abs_path(path)`: the loop over the roots returns at the first root that settles the
        search. */
    method ResolveAbsPath(path: string) returns (r: Option<string>)
      ensures r == Resolve(path, roots, Present(State()))
    {
      var p := Normalize(path);
      if IsAbs(p) && Exists(p) {
        return Some(p);
      }
      var i := 0;
      while i < |roots|
        invariant 0 <= i <= |roots|
        invariant ScanRoots(p, roots, Present(State())) == ScanRoots(p, roots[i..], Present(State()))
      {
        var potential := Join(roots[i], p);
        if Exists(potential) {
          return Some(potential);
        }
        if StartsWith(p, roots[i]) {
          return Some(p);
        }
        assert roots[i..][1..] == roots[i + 1..];
        i := i + 1;
      }
      if |roots| > 0 {
        if IsAbs(p) {
          return Some(p);
        }
        return Some(Join(roots[0], p));
      }
      return None;
    }

    /** `create_file(relPath, content)` */
    method CreateFile(relPath: string, content: string) returns (ok: bool)
      requires Valid()
      modifies this
      ensures Valid()
      ensures var r := CreateStep(old(State()), roots, relPath, content); ok == r.ok && State() == r.fs
    {
      CreatePreservesWf(State(), roots, relPath, content);
      var absPath := ResolveAbsPath(relPath);
      if absPath.None? || absPath.value == [] {
        return false;
      }
      var abs := absPath.value;
      if NoSeparator(abs) || !(ParentDirs(abs) !! files.Keys) {
        return false;
      }
      dirs := dirs + ParentDirs(abs);
      if abs in dirs || EndsWithSlash(abs) {
        return false;
      }
      files := files[abs := content];
      return true;
    }

    /** `delete_file(relPath)` */
    method DeleteFile(relPath: string) returns (ok: bool)
      requires Valid()
      modifies this
      ensures Valid()
      ensures var r := DeleteStep(old(State()), roots, relPath); ok == r.ok && State() == r.fs
    {
      DeletePreservesWf(State(), roots, relPath);
      var absPath := ResolveAbsPath(relPath);
      if absPath.None? || absPath.value == [] || !Exists(absPath.value) {
        return false;
      }
      var abs := absPath.value;
      if abs in dirs {
        return false;
      }
      files := files - {abs};
      return true;
    }

    /** `modify_file(relPath, searchText, replaceText)` */
    method ModifyFile(relPath: string, searchText: string, replaceText: string) returns (ok: bool)
      requires Valid()
      modifies this
      ensures Valid()
      ensures var r := ModifyStep(old(State()), roots, relPath, searchText, replaceText); ok == r.ok && State() == r.fs
    {
      ModifyPreservesWf(State(), roots, relPath, searchText, replaceText);
      var absPath := ResolveAbsPath(relPath);
      if absPath.None? || absPath.value == [] || !Exists(absPath.value) {
        return false;
      }
      var abs := absPath.value;
      if abs in dirs {
        return false;
      }
      var content := TextRead(files[abs]);
      match Rewrite(content, searchText, replaceText)
      case None =>
        return false;
      case Some(newContent) =>
        files := files[abs := newContent];
        return true;
    }

    /** Applies one match through the method for its operation, and returns its log entry. */
    method ApplyOne(f: Found) returns (e: Entry)
      requires Valid()
      modifies this
      ensures Valid()
      ensures var r := ApplyMatch(old(State()), roots, f); e == r.1 && State() == r.0.fs
    {
      var path := Strip(f.path);
      match f
      case CreateMatch(_, _, _, content) =>
        var ok := CreateFile(path, content);
        e := Entry(Created, ok, path);
      case DeleteMatch(_, _, _) =>
        var ok := DeleteFile(path);
        e := Entry(Deleted, ok, path);
      case ModifyMatch(_, _, _, search, replace) =>
        var ok := ModifyFile(path, search, replace);
        e := Entry(Modified, ok, path);
    }

    /** One turn of a loop of `paste_and_apply`: applies `f` after the matches `prior` have been
        applied to `fs0` and logged in `log0`, and adds its line to the log. */
    method ApplyNext(ghost fs0: Fs, ghost prior: seq<Found>, f: Found, log0: seq<Entry>) returns (log: seq<Entry>)
      requires Valid()
      requires (State(), log0) == ApplyAll(fs0, roots, prior)
      modifies this
      ensures Valid()
      ensures (State(), log) == ApplyAll(fs0, roots, prior + [f])
    {
      ApplyAllSnoc(fs0, roots, prior, f);
      var e := ApplyOne(f);
      log := log0 + [e];
    }

    /** One of the loops of `paste_and_apply`: applies the matches `ms` in order, after the matches
        `done` have been applied to `fs0` and logged in `log0`. */
    method ApplyEach(ghost fs0: Fs, ghost done: seq<Found>, ms: seq<Found>, log0: seq<Entry>)
        returns (log: seq<Entry>)
      requires Valid()
      requires (State(), log0) == ApplyAll(fs0, roots, done)
      modifies this
      ensures Valid()
      ensures (State(), log) == ApplyAll(fs0, roots, done + ms)
    {
      log := log0;
      ghost var prior := done;
      PrefixEnds(done, ms);
      var i := 0;
      while i < |ms|
        invariant 0 <= i <= |ms|
        invariant prior == done + ms[..i]
        invariant Valid()
        invariant (State(), log) == ApplyAll(fs0, roots, prior)
      {
        PrefixSnoc(done, ms, i);
        log := ApplyNext(fs0, prior, ms[i], log);
        prior := prior + [ms[i]];
        i := i + 1;
      }
    }

    /** `paste_and_apply()` on the clipboard text `response`. */
    method PasteAndApply(response: string) returns (dialog: Dialog)
      requires Valid()
      modifies this
      ensures Valid()
      ensures (State(), dialog) == PasteOutcome(old(State()), roots, response)
    {
      if response == [] {
        return ErrorDialog("Clipboard is empty.");
      }
      ghost var fs0 := State();
      var creates := Matches(NewFilePattern, response);
      var changesLog := ApplyEach(fs0, [], creates, []);
      assert [] + creates == creates;
      var deletes := Matches(DeletePattern, response);
      changesLog := ApplyEach(fs0, creates, deletes, changesLog);
      var modifications := Matches(ModPattern, response);
      changesLog := ApplyEach(fs0, creates + deletes, modifications, changesLog);
      return ResultDialog(Report(changesLog));
    }
  }
}
