/** The three patterns that `paste_and_apply` runs over the pasted response, and `finditer`.

    Each pattern is a fixed concatenation of pieces. A piece is matched by a function that is handed
    the text, the position where the piece starts and a continuation: the rest of the pattern. It
    tries the piece's possible lengths in the order Python's backtracking engine tries them (a greedy
    quantifier longest first, a lazy one shortest first) and returns the first result for which the
    continuation succeeds. A match thus has exactly the groups Python's `re` reports. Where a
    quantifier can end in one place only whatever follows it (an opening fence line, and the part of
    the modification pattern after its search block), that place is computed directly (`OpeningEnd`,
    `WithSpan`). The pieces are also written with the combinators, the continuations as named
    functions, and `OpeningIsPattern`, `WithSpanIsPattern` and `SearchCloseIsBody` prove that
    backtracking reaches the same result. Each matcher finds a match exactly when its pattern is
    present at that position, a condition on the text alone (`NewFileHolds`, `DeleteHolds`,
    `ModifyHolds`, gathered in `PatternAt` and `MatchAtIff`). */
module Scan {
  import opened Wrappers
  import opened Text

  /** The closing and opening fence of a code block. */
  const Fence: string := "```"

  /** `[^\n]` */
  predicate NotNewline(c: char) { c != '\n' }

  /** The end of the run of characters in `cls` that starts at `i`. */
  function RunEnd(t: string, i: nat, cls: char -> bool): (e: nat)
    requires i <= |t|
    decreases |t| - i
    ensures i <= e <= |t|
    ensures forall j :: i <= j < e ==> cls(t[j])
    ensures e < |t| ==> !cls(t[e])
  {
    if i < |t| && cls(t[i]) then RunEnd(t, i + 1, cls) else i
  }

  /** `t[i..m]` is made of characters in `cls`: a length that `c*` may take from `i`. */
  predicate Run(t: string, i: nat, m: nat, cls: char -> bool) {
    i <= m <= |t| && forall j :: i <= j < m ==> cls(t[j])
  }

  /** Every run of characters in `cls` from `i` ends at or before `RunEnd`. */
  lemma RunCovers(t: string, i: nat, cls: char -> bool)
    requires i <= |t|
    ensures forall m: nat :: Run(t, i, m, cls) ==> m <= RunEnd(t, i, cls)
  {
    var e := RunEnd(t, i, cls);
    forall m: nat | Run(t, i, m, cls) ensures m <= e {
    }
  }

  /** Tries `k` at `j`, `j - 1`, ..., `lo`: a greedy quantifier giving characters back one by one. */
  function Down<X>(lo: nat, j: nat, k: nat -> Option<X>): (r: Option<X>)
    decreases j
    ensures r.Some? ==> exists m :: lo <= m <= j && r == k(m) && forall m' :: m < m' <= j ==> k(m').None?
    ensures r.None? ==> forall m :: lo <= m <= j ==> k(m).None?
  {
    if j < lo then None
    else if k(j).Some? then k(j)
    else if j == lo then None
    else Down(lo, j - 1, k)
  }

  /** A literal string. */
  function Lit<X>(t: string, i: nat, s: string, k: nat -> Option<X>): (r: Option<X>)
    ensures r.Some? ==> OccursAt(t, s, i) && r == k(i + |s|)
  {
    if OccursAt(t, s, i) then k(i + |s|) else None
  }

  /** `c*`, greedy. */
  function Star<X>(t: string, i: nat, cls: char -> bool, k: nat -> Option<X>): (r: Option<X>)
    ensures r.Some? ==> exists m: nat :: i <= m <= |t| && r == k(m) && forall j :: i <= j < m ==> cls(t[j])
  {
    if i <= |t| then Down(i, RunEnd(t, i, cls), k) else None
  }

  /** `c*` fails exactly when its continuation fails after every run of `c` characters. */
  lemma StarFails<X>(t: string, i: nat, cls: char -> bool, k: nat -> Option<X>)
    ensures Star(t, i, cls, k).None? <==> forall m: nat :: Run(t, i, m, cls) ==> k(m).None?
  {
    if i <= |t| {
      RunCovers(t, i, cls);
    }
  }

  /** `c+`, greedy. */
  function Plus<X>(t: string, i: nat, cls: char -> bool, k: nat -> Option<X>): (r: Option<X>)
    ensures r.Some? ==> exists m: nat :: i < m <= |t| && r == k(m) && forall j :: i <= j < m ==> cls(t[j])
  {
    if i < |t| && cls(t[i]) then Down(i + 1, RunEnd(t, i, cls), k) else None
  }

  /** `c+` fails exactly when its continuation fails after every non-empty run of `c` characters. */
  lemma PlusFails<X>(t: string, i: nat, cls: char -> bool, k: nat -> Option<X>)
    ensures Plus(t, i, cls, k).None? <==> forall m: nat :: i < m && Run(t, i, m, cls) ==> k(m).None?
  {
    if i <= |t| {
      RunCovers(t, i, cls);
    }
  }

  /** `t[i..j]`, or the empty string when the bounds do not fit. */
  function Slice(t: string, i: nat, j: nat): string {
    if i <= j <= |t| then t[i..j] else []
  }

  /** `t[i..j]` is one non-empty line: the text `[^\n]+` captures. */
  predicate LineAt(t: string, i: nat, j: nat) {
    i < j <= |t| && forall m :: i <= m < j ==> t[m] != '\n'
  }

  /** `t[i..j]` is whitespace only: what a `\s*` that spans it consumes. */
  predicate Spaces(t: string, i: nat, j: nat) {
    i <= j <= |t| && forall m :: i <= m < j ==> IsSpace(t[m])
  }

  /** Where a header `<keyword>\s*(?P<path>[^\n]+)\s*\n` matched at `p`: whitespace up to `ps`, the
      path on one line from `ps` to `pe`, whitespace again and a newline just before `n`, where the
      header ends. For a given `n`, `ps` may lie anywhere in the whitespace before the path and `pe`
      anywhere in the whitespace after it, where the greedy quantifiers pick one place each; stripped,
      which is how every path is used, the path is the same for all of them (`HeaderPathStrip`). */
  predicate HeaderSpan(t: string, p: nat, keyword: string, ps: nat, pe: nat, n: nat) {
    && OccursAt(t, keyword, p) && Spaces(t, p + |keyword|, ps) && LineAt(t, ps, pe)
    && pe < n <= |t| && Spaces(t, pe, n - 1) && t[n - 1] == '\n'
  }

  /** Whitespace in `t` between `i` and `j`, as a piece of text. */
  lemma SpacesSlice(t: string, i: nat, j: nat)
    requires Spaces(t, i, j)
    ensures AllSpace(t[i..j])
  {
    assert forall k :: 0 <= k < j - i ==> t[i..j][k] == t[i + k];
  }

  /** A header that ends at `n` fixes its stripped path: the stripped text between the keyword and
      the newline. */
  lemma HeaderPathStrip(t: string, p: nat, keyword: string, ps: nat, pe: nat, n: nat)
    requires HeaderSpan(t, p, keyword, ps, pe, n)
    ensures Strip(t[ps..pe]) == Strip(t[p + |keyword|..n - 1])
  {
    var a := p + |keyword|;
    assert t[a..n - 1] == t[a..ps] + t[ps..pe] + t[pe..n - 1];
    SpacesSlice(t, a, ps);
    SpacesSlice(t, pe, n - 1);
    StripSurrounded(t[a..ps], t[ps..pe], t[pe..n - 1]);
  }

  /** `\s*\n` after a header's path. */
  function HeaderEnd<X>(t: string, ps: nat, pe: nat, k: (nat, nat, nat) -> Option<X>): (r: Option<X>)
    ensures r.Some? ==> exists n: nat :: pe < n <= |t| && Spaces(t, pe, n - 1) && t[n - 1] == '\n' && r == k(ps, pe, n)
    ensures r.None? ==> forall n: nat :: pe < n <= |t| && Spaces(t, pe, n - 1) && t[n - 1] == '\n' ==> k(ps, pe, n).None?
  {
    var nl := (b: nat) => Lit(t, b, "\n", n => k(ps, pe, n));
    var r := Star(t, pe, IsSpace, nl);
    assert r.Some? ==> exists b: nat :: Spaces(t, pe, b) && OccursAt(t, "\n", b) && r == k(ps, pe, b + 1);
    assert forall b: nat :: OccursAt(t, "\n", b) ==> t[b] == t[b..b + 1][0];
    assert r.None? ==> forall n: nat :: pe < n <= |t| && Spaces(t, pe, n - 1) && t[n - 1] == '\n' ==> k(ps, pe, n).None? by {
      if r.None? {
        StarFails(t, pe, IsSpace, nl);
        forall n: nat | pe < n <= |t| && Spaces(t, pe, n - 1) && t[n - 1] == '\n' ensures k(ps, pe, n).None? {
          assert Run(t, pe, n - 1, IsSpace);
          assert t[n - 1..n] == "\n";
          assert nl(n - 1) == k(ps, pe, n);
        }
      }
    }
    r
  }

  /** `(?P<path>[^\n]+)\s*\n` */
  function HeaderPath<X>(t: string, ps: nat, k: (nat, nat, nat) -> Option<X>): (r: Option<X>)
    ensures r.Some? ==> exists pe: nat, n: nat :: && LineAt(t, ps, pe) && pe < n <= |t| && Spaces(t, pe, n - 1)
                                                 && t[n - 1] == '\n' && r == k(ps, pe, n)
    ensures r.None? ==> forall pe: nat, n: nat :: (LineAt(t, ps, pe) && pe < n <= |t| && Spaces(t, pe, n - 1)
                                                   && t[n - 1] == '\n') ==> k(ps, pe, n).None?
  {
    var he := (pe: nat) => HeaderEnd(t, ps, pe, k);
    var r := Plus(t, ps, NotNewline, he);
    assert r.None? ==> forall pe: nat, n: nat :: (LineAt(t, ps, pe) && pe < n <= |t| && Spaces(t, pe, n - 1)
                                                   && t[n - 1] == '\n') ==> k(ps, pe, n).None? by {
      if r.None? {
        PlusFails(t, ps, NotNewline, he);
        forall pe: nat, n: nat | && LineAt(t, ps, pe) && pe < n <= |t| && Spaces(t, pe, n - 1) && t[n - 1] == '\n'
          ensures k(ps, pe, n).None?
        {
          assert Run(t, ps, pe, NotNewline);
          assert he(pe).None?;
        }
      }
    }
    r
  }

  /** `<keyword>\s*(?P<path>[^\n]+)\s*\n`: hands the path's span and the position after the newline to `k`. */
  function Header<X>(t: string, p: nat, keyword: string, k: (nat, nat, nat) -> Option<X>): (r: Option<X>)
    ensures r.Some? ==> exists ps: nat, pe: nat, n: nat :: HeaderSpan(t, p, keyword, ps, pe, n) && r == k(ps, pe, n)
    ensures r.None? ==> forall ps: nat, pe: nat, n: nat :: HeaderSpan(t, p, keyword, ps, pe, n) ==> k(ps, pe, n).None?
  {
    var hp := (ps: nat) => HeaderPath(t, ps, k);
    var r := Lit(t, p, keyword, a => Star(t, a, IsSpace, hp));
    assert r.None? ==> forall ps: nat, pe: nat, n: nat :: HeaderSpan(t, p, keyword, ps, pe, n) ==> k(ps, pe, n).None? by {
      if r.None? {
        StarFails(t, p + |keyword|, IsSpace, hp);
        forall ps: nat, pe: nat, n: nat | HeaderSpan(t, p, keyword, ps, pe, n) ensures k(ps, pe, n).None? {
          assert r == Star(t, p + |keyword|, IsSpace, hp);
          assert Run(t, p + |keyword|, ps, IsSpace);
          assert hp(ps).None?;
        }
      }
    }
    r
  }

  /** `\n```(?:\w+)?\n` after an introducer. (`(?:\w+)?` tries the same lengths in the same order as
      `\w*`.) Each continuation is a named function, so that two mentions of it are the same term. */
  function Fenceline<X>(t: string, b: nat, k: nat -> Option<X>): (r: Option<X>)
    ensures r.Some? ==> b + 1 < |t| && t[b] == '\n' && t[b + 1] == '`'
  {
    var r := Lit(t, b, "\n", FenceK(t, k));
    assert r.Some? ==> OccursAt(t, "\n", b) && OccursAt(t, Fence, b + 1);
    assert r.Some? ==> t[b] == t[b..b + 1][0] && t[b + 1] == t[b + 1..b + 4][0];
    r
  }

  /** `\n` then ```` ``` ```` */
  function FenceK<X>(t: string, k: nat -> Option<X>): nat -> Option<X> {
    (c: nat) => Lit(t, c, Fence, TagK(t, k))
  }

  /** `(?:\w+)?` */
  function TagK<X>(t: string, k: nat -> Option<X>): nat -> Option<X> {
    (d: nat) => Star(t, d, IsWord, NewlineK(t, k))
  }

  /** `\n` */
  function NewlineK<X>(t: string, k: nat -> Option<X>): nat -> Option<X> {
    (e: nat) => Lit(t, e, "\n", k)
  }

  /** `Fenceline` as a continuation. */
  function FencelineK<X>(t: string, k: nat -> Option<X>): nat -> Option<X> {
    (b: nat) => Fenceline(t, b, k)
  }

  /** `<intro>\s*\n```(?:\w+)?\n` as the backtracking engine tries it: an introducer line and an
      opening fence with an optional tag. */
  function Opening<X>(t: string, i: nat, intro: string, k: nat -> Option<X>): (r: Option<X>)
    ensures r.Some? ==> OccursAt(t, intro, i)
  {
    if OccursAt(t, intro, i) then Star(t, i + |intro|, IsSpace, FencelineK(t, k)) else None
  }

  /** `(?P<block>.*?)```` : a block body captured lazily up to a closing fence; `k` gets the body's end
      and the position after the fence. Under `re.DOTALL` the lazy `.*?` tries the ends `c`, `c + 1`,
      ... in turn, so the body ends at the first fence for which `k` succeeds, and there is no match
      when `k` succeeds after none. */
  function Body<X>(t: string, c: nat, k: (nat, nat) -> Option<X>): (r: Option<X>)
    decreases |t| - c
    ensures r.Some? ==> exists ce: nat :: (c <= ce && OccursAt(t, Fence, ce) && r == k(ce, ce + 3)
                                      && forall m :: c <= m < ce && OccursAt(t, Fence, m) ==> k(m, m + 3).None?)
    ensures r.None? ==> forall m: nat :: c <= m && OccursAt(t, Fence, m) ==> k(m, m + 3).None?
  {
    if c + |Fence| > |t| then None
    else if OccursAt(t, Fence, c) && k(c, c + 3).Some? then k(c, c + 3)
    else Body(t, c + 1, k)
  }

  /** One match of one of the three patterns, with the span `start..end` of the text it covers. */
  datatype Found =
    | CreateMatch(start: nat, end: nat, path: string, content: string)
    | DeleteMatch(start: nat, end: nat, path: string)
    | ModifyMatch(start: nat, end: nat, path: string, search: string, replace: string)

  /** The three compiled patterns of `paste_and_apply`. */
  datatype Pattern = NewFilePattern | DeletePattern | ModPattern

  /** The text ````` occurs nowhere in `s`. */
  predicate FenceFree(s: string) {
    forall j :: 0 <= j < |s| ==> !OccursAt(s, Fence, j)
  }

  /** No fence starts at `m`. */
  predicate NoFenceAt(t: string, m: nat) {
    !OccursAt(t, Fence, m)
  }

  /** The fence at `ce` is the first one at or after `c`. */
  predicate FirstFence(t: string, c: nat, ce: nat) {
    c <= ce && OccursAt(t, Fence, ce) && forall m :: c <= m < ce ==> NoFenceAt(t, m)
  }

  /** `s` is the block of `t` that starts at `c` and ends at the first fence after it, at `ce`. */
  predicate Block(t: string, c: nat, ce: nat, s: string) {
    FirstFence(t, c, ce) && s == t[c..ce]
  }

  /** A body that ends at the first fence after `c` holds no fence. */
  lemma FirstFenceFree(t: string, c: nat, ce: nat)
    requires c <= ce <= |t|
    requires forall m :: c <= m < ce ==> !OccursAt(t, Fence, m)
    ensures FenceFree(t[c..ce])
  {
    forall j | OccursAt(t[c..ce], Fence, j) ensures false {
      OccursInSlice(t, Fence, c, ce, j);
    }
  }

  /** The content block of a `New:` match, then nothing more: the content runs up to the first
      fence, and there is no match when no fence follows. */
  function NewFileBody(t: string, p: nat, ps: nat, pe: nat, c: nat): (r: Option<Found>)
    ensures r.Some? ==> r.value.CreateMatch? && r.value.start == p && c < r.value.end <= |t|
                        && r.value.path == Slice(t, ps, pe) && FenceFree(r.value.content)
                        && exists ce: nat :: Block(t, c, ce, r.value.content) && r.value.end == ce + 3
    ensures r.None? ==> forall m: nat :: c <= m ==> !OccursAt(t, Fence, m)
  {
    var r := Body(t, c, (ce, e) => Some(CreateMatch(p, e, Slice(t, ps, pe), Slice(t, c, ce))));
    assert r.Some? ==> FenceFree(r.value.content)
                       && exists ce: nat :: Block(t, c, ce, r.value.content) && r.value.end == ce + 3 by {
      if r.Some? {
        var ce :| c <= ce && OccursAt(t, Fence, ce) && r == Some(CreateMatch(p, ce + 3, Slice(t, ps, pe), Slice(t, c, ce)))
                  && forall m :: c <= m < ce && OccursAt(t, Fence, m) ==> false;
        FirstFenceFree(t, c, ce);
        assert Block(t, c, ce, r.value.content);
      }
    }
    r
  }

  /** The content block of a `New:` match whose header ends at `n`: it starts where the `Content:`
      opening line ends and runs up to the first fence, whose end ends the match. */
  ghost predicate ContentGroups(t: string, n: nat, f: Found) {
    && f.CreateMatch? && OpeningEnd(t, n, "Content:").Some?
    && exists ce: nat :: Block(t, OpeningEnd(t, n, "Content:").value, ce, f.content) && f.end == ce + 3
  }

  /** After a header that ends at `n` come a `Content:` opening line and, somewhere after it, a fence. */
  predicate ContentCloses(t: string, n: nat) {
    OpeningEnd(t, n, "Content:").Some? && Find(t, Fence, OpeningEnd(t, n, "Content:").value).Some?
  }

  /** `new_file_pattern` matches at `p`: a `New:` header, then a `Content:` opening line and a fence. */
  ghost predicate NewFileHolds(t: string, p: nat) {
    exists ps: nat, pe: nat, n: nat :: HeaderSpan(t, p, "New:", ps, pe, n) && ContentCloses(t, n)
  }

  /** `Content:\s*\n```(?:\w+)?\n(?P<content>.*?)```` after a `New:` header that ends at `n`. */
  function NewFileRest(t: string, p: nat, ps: nat, pe: nat, n: nat): (r: Option<Found>)
    ensures r.Some? ==> r.value.CreateMatch? && r.value.start == p && n < r.value.end <= |t|
                        && r.value.path == Slice(t, ps, pe) && FenceFree(r.value.content)
                        && ContentGroups(t, n, r.value)
    ensures r.Some? <==> ContentCloses(t, n)
  {
    match OpeningEnd(t, n, "Content:")
    case None => None
    case Some(c) => NewFileBody(t, p, ps, pe, c)
  }

  /** `new_file_pattern.match(t, p)`:
      `New:\s*(?P<path>[^\n]+)\s*\nContent:\s*\n```(?:\w+)?\n(?P<content>.*?)````. The path is a line
      of the header, and the content is the text from the end of the opening fence's line up to the
      first closing fence. */
  function NewFileAt(t: string, p: nat): (r: Option<Found>)
    ensures r.Some? ==> r.value.CreateMatch? && r.value.start == p && p < r.value.end <= |t|
    ensures r.Some? ==> FenceFree(r.value.content)
    ensures r.Some? ==> exists ps: nat, pe: nat, n: nat :: && HeaderSpan(t, p, "New:", ps, pe, n)
                                                          && r.value.path == t[ps..pe] && ContentGroups(t, n, r.value)
    ensures r.Some? <==> NewFileHolds(t, p)
  {
    var rest := (ps: nat, pe: nat, n: nat) => NewFileRest(t, p, ps, pe, n);
    var r := Header(t, p, "New:", rest);
    assert r.Some? ==> exists ps: nat, pe: nat, n: nat :: HeaderSpan(t, p, "New:", ps, pe, n) && r == NewFileRest(t, p, ps, pe, n);
    assert NewFileHolds(t, p) ==> r.Some? by {
      if NewFileHolds(t, p) {
        var ps: nat, pe: nat, n: nat :| HeaderSpan(t, p, "New:", ps, pe, n) && ContentCloses(t, n);
        assert rest(ps, pe, n).Some?;
      }
    }
    r
  }

  /** `(?P<path>[^\n]+)` ending a `Delete:` match: the path runs to the end of its line. */
  function DeletePath(t: string, p: nat, ps: nat): (r: Option<Found>)
    ensures r.Some? ==> r.value.DeleteMatch? && r.value.start == p && LineAt(t, ps, r.value.end)
                        && r.value.path == t[ps..r.value.end]
    ensures r.Some? ==> r.value.end == |t| || t[r.value.end] == '\n'
    ensures r.Some? <==> ps < |t| && t[ps] != '\n'
  {
    var k := (pe: nat) => Some(DeleteMatch(p, pe, Slice(t, ps, pe)));
    if ps < |t| && NotNewline(t[ps]) then
      var e := RunEnd(t, ps, NotNewline);
      assert e == RunEnd(t, ps + 1, NotNewline);
      assert Plus(t, ps, NotNewline, k) == k(e);
      Plus(t, ps, NotNewline, k)
    else
      Plus(t, ps, NotNewline, k)
  }

  /** `(?P<path>[^\n]+)` from `ps` as a continuation. */
  function DeleteK(t: string, p: nat): nat -> Option<Found> {
    (ps: nat) => DeletePath(t, p, ps)
  }

  /** Where the path of a `Delete:` match at `p` starts: the greedy `\s*` takes whitespace up to `ps`,
      and no later end of it leaves a non-newline character for the path. */
  predicate DeleteStart(t: string, p: nat, ps: nat) {
    && OccursAt(t, "Delete:", p) && Spaces(t, p + 7, ps) && ps < |t| && t[ps] != '\n'
    && forall m :: ps < m < |t| && Spaces(t, p + 7, m) ==> t[m] == '\n'
  }

  /** `del_pattern` matches at `p`: `Delete:`, whitespace, and a character other than a newline. */
  ghost predicate DeleteHolds(t: string, p: nat) {
    exists ps: nat :: OccursAt(t, "Delete:", p) && Spaces(t, p + 7, ps) && ps < |t| && t[ps] != '\n'
  }

  /** `del_pattern.match(t, p)`: `Delete:\s*(?P<path>[^\n]+)`. The path starts where the greedy
      whitespace leaves a character for it and runs to the end of its line. */
  function DeleteAt(t: string, p: nat): (r: Option<Found>)
    ensures r.Some? ==> r.value.DeleteMatch? && r.value.start == p && p < r.value.end <= |t|
    ensures r.Some? ==> exists ps: nat :: && DeleteStart(t, p, ps) && LineAt(t, ps, r.value.end)
                                         && r.value.path == t[ps..r.value.end]
    ensures r.Some? ==> r.value.end == |t| || t[r.value.end] == '\n'
    ensures r.Some? <==> DeleteHolds(t, p)
  {
    var r := if OccursAt(t, "Delete:", p) then Star(t, p + 7, IsSpace, DeleteK(t, p)) else None;
    assert DeleteHolds(t, p) ==> r.Some? by {
      if DeleteHolds(t, p) {
        var ps: nat :| OccursAt(t, "Delete:", p) && Spaces(t, p + 7, ps) && ps < |t| && t[ps] != '\n';
        StarFails(t, p + 7, IsSpace, DeleteK(t, p));
        assert Run(t, p + 7, ps, IsSpace);
        assert DeleteK(t, p)(ps).Some?;
      }
    }
    assert r.Some? ==> exists ps: nat :: DeleteStart(t, p, ps) && r == DeletePath(t, p, ps) by {
      if r.Some? {
        var a := p + 7;
        var e := RunEnd(t, a, IsSpace);
        assert r == Down(a, e, DeleteK(t, p));
        var ps :| a <= ps <= e && r == DeleteK(t, p)(ps) && forall m' :: ps < m' <= e ==> DeleteK(t, p)(m').None?;
        forall m | ps < m < |t| && Spaces(t, a, m) ensures t[m] == '\n' {
          assert e < |t| ==> !IsSpace(t[e]);
          assert m <= e;
          assert DeleteK(t, p)(m).None?;
        }
        assert DeleteStart(t, p, ps);
      }
    }
    r
  }

  /** `\s*\n` before a character that cannot be a space: greedy backtracking can only end `\s*`
      one character before the end of its run, so the newline is the run's last character. The
      position after that newline. */
  function SpacesNewline(t: string, i: nat): (r: Option<nat>)
    ensures r.Some? ==> i < r.value <= |t| && t[r.value - 1] == '\n'
    ensures r.Some? ==> r.value == RunEnd(t, i, IsSpace)
  {
    if i <= |t| && i < RunEnd(t, i, IsSpace) && t[RunEnd(t, i, IsSpace) - 1] == '\n' then Some(RunEnd(t, i, IsSpace))
    else None
  }

  /** `(?:\w+)?\n`: the tag is the whole run of word characters, since a newline is not one. The
      position after the newline. */
  function TagNewline(t: string, d: nat): (r: Option<nat>)
    ensures r.Some? ==> d < r.value <= |t| && t[r.value - 1] == '\n'
    ensures r.Some? ==> r.value == RunEnd(t, d, IsWord) + 1
  {
    if d <= |t| && RunEnd(t, d, IsWord) < |t| && t[RunEnd(t, d, IsWord)] == '\n' then Some(RunEnd(t, d, IsWord) + 1)
    else None
  }

  /** ```` ```(?:\w+)?\n ```` from `g`, computed directly: the position after the fence line. */
  function FenceTag(t: string, g: nat): (r: Option<nat>)
    ensures r.Some? ==> OccursAt(t, Fence, g) && g + 3 < r.value <= |t| && t[r.value - 1] == '\n'
  {
    if OccursAt(t, Fence, g) then TagNewline(t, g + 3) else None
  }

  /** `<intro>\s*\n```(?:\w+)?\n` from `i`, computed directly: where the block after the opening fence
      starts. `OpeningIsPattern` shows that backtracking reaches the same place. */
  function OpeningEnd(t: string, i: nat, intro: string): (r: Option<nat>)
    ensures r.Some? ==> OccursAt(t, intro, i) && i + |intro| < r.value <= |t| && t[r.value - 1] == '\n'
  {
    if OccursAt(t, intro, i) then SpacesFence(t, i + |intro|) else None
  }

  /** `\s*\n```(?:\w+)?\n` from `a`, computed directly. */
  function SpacesFence(t: string, a: nat): (r: Option<nat>)
    ensures r.Some? ==> a < r.value <= |t| && t[r.value - 1] == '\n'
  {
    match SpacesNewline(t, a)
    case None => None
    case Some(g) => FenceTag(t, g)
  }

  /** `k` after an optional position. */
  function Then<X>(e: Option<nat>, k: nat -> Option<X>): Option<X> {
    match e
    case Some(c) => k(c)
    case None => None
  }

  /** `(?:\w+)?\n` ends where `TagNewline` says: the tag is the whole run of word characters. */
  lemma TagAt<X>(t: string, d: nat, k: nat -> Option<X>)
    ensures TagK(t, k)(d) == Then(TagNewline(t, d), k)
  {
    assert TagK(t, k)(d) == Star(t, d, IsWord, NewlineK(t, k));
    forall m: nat | NewlineK(t, k)(m).Some? ensures m < |t| && t[m] == '\n' {
      assert OccursAt(t, "\n", m);
      assert t[m] == t[m..m + 1][0];
    }
    StarWordNewline(t, d, NewlineK(t, k));
    if d <= |t| {
      var e := RunEnd(t, d, IsWord);
      assert e < |t| ==> (OccursAt(t, "\n", e) <==> t[e] == '\n') by {
        if e < |t| { assert t[e..e + 1] == [t[e]]; }
      }
    }
  }

  /** After a newline at `b`, `Fenceline` ends where `FenceTag` says. */
  lemma FencelineAt<X>(t: string, b: nat, k: nat -> Option<X>)
    requires b < |t| && t[b] == '\n'
    ensures Fenceline(t, b, k) == Then(FenceTag(t, b + 1), k)
  {
    assert t[b..b + 1] == "\n";
    assert Fenceline(t, b, k) == FenceK(t, k)(b + 1);
    if OccursAt(t, Fence, b + 1) {
      calc {
        FenceK(t, k)(b + 1);
        TagK(t, k)(b + 4);
        { TagAt(t, b + 4, k); }
        Then(TagNewline(t, b + 4), k);
      }
    }
  }

  /** A `Fenceline` that matches starts with a newline and a backquote, which is not whitespace. */
  lemma FencelineStarts<X>(t: string, k: nat -> Option<X>)
    ensures forall f: nat :: FencelineK(t, k)(f).Some? ==> f + 1 < |t| && t[f] == '\n' && !IsSpace(t[f + 1])
  {
    forall f: nat | FencelineK(t, k)(f).Some? ensures f + 1 < |t| && t[f] == '\n' && !IsSpace(t[f + 1]) {
      assert Fenceline(t, f, k).Some?;
    }
  }

  /** `\s*` before a fence line ends once only, where `SpacesNewline` says. */
  lemma SpacesFenceline<X>(t: string, a: nat, k: nat -> Option<X>)
    ensures Star(t, a, IsSpace, FencelineK(t, k)) == Then(SpacesFence(t, a), k)
  {
    FencelineStarts(t, k);
    StarSpacesNewline(t, a, FencelineK(t, k));
    if SpacesNewline(t, a).Some? {
      FencelineAt(t, SpacesNewline(t, a).value - 1, k);
    }
  }

  /** Where the introducer occurs, an opening line is the whitespace and the fence line after it. */
  lemma OpeningUnfold<X>(t: string, i: nat, intro: string, k: nat -> Option<X>)
    requires OccursAt(t, intro, i)
    ensures Opening(t, i, intro, k) == Star(t, i + |intro|, IsSpace, FencelineK(t, k))
  {
  }

  /** Where the introducer occurs, an opening line ends where the whitespace and fence line after
      the introducer end. */
  lemma OpeningSpaces<X>(t: string, i: nat, intro: string, k: nat -> Option<X>)
    requires OccursAt(t, intro, i)
    ensures Opening(t, i, intro, k) == Then(SpacesFence(t, i + |intro|), k)
  {
    OpeningUnfold(t, i, intro, k);
    SpacesFenceline(t, i + |intro|, k);
  }

  /** The backtracking form of an opening line ends where `OpeningEnd` says, whatever follows. */
  lemma OpeningIsPattern<X>(t: string, i: nat, intro: string, k: nat -> Option<X>)
    ensures Opening(t, i, intro, k) == Then(OpeningEnd(t, i, intro), k)
  {
    if OccursAt(t, intro, i) {
      OpeningSpaces(t, i, intro, k);
      assert OpeningEnd(t, i, intro) == SpacesFence(t, i + |intro|);
    }
  }

  /** `\s*\nWith:\s*\n```(?:\w+)?\n(?P<replace>.*?)```` after the search block's closing fence, which
      ends at `e`: where the replacement block starts, and where its closing fence is. Every
      quantifier here can end in one place only, so the pieces are taken in turn;
      `WithSpanIsPattern` shows that backtracking finds the same spans. */
  function WithSpan(t: string, e: nat): (r: Option<(nat, nat)>)
    ensures r.Some? ==> e < r.value.0 && FirstFence(t, r.value.0, r.value.1)
  {
    match SpacesNewline(t, e)
    case None => None
    case Some(g) =>
      match OpeningEnd(t, g, "With:")
      case None => None
      case Some(c2) =>
        match Find(t, Fence, c2)
        case None => None
        case Some(ce2) => Some((c2, ce2))
  }

  /** `\s*\nWith:\s*\n```(?:\w+)?\n(?P<replace>.*?)```` from `e` as the backtracking engine tries it,
      with the spans of the replacement block as its result. */
  function WithPattern(t: string, e: nat): Option<(nat, nat)> {
    Star(t, e, IsSpace, WithLineK(t))
  }

  /** `\n` then the `With:` opening line */
  function WithLineK(t: string): nat -> Option<(nat, nat)> {
    (b: nat) => Lit(t, b, "\n", WithOpenK(t))
  }

  /** `With:\s*\n```(?:\w+)?\n` then the replacement block */
  function WithOpenK(t: string): nat -> Option<(nat, nat)> {
    (g: nat) => Opening(t, g, "With:", ReplaceK(t))
  }

  /** `(?P<replace>.*?)```` from `c`, the end of the pattern */
  function ReplaceK(t: string): nat -> Option<(nat, nat)> {
    (c: nat) => Body(t, c, SpanK(c))
  }

  /** The end of the pattern: the replacement block spans `c..ce`. */
  function SpanK(c: nat): (nat, nat) -> Option<(nat, nat)> {
    (ce: nat, e: nat) => Some((c, ce))
  }

  /** A lazy block that nothing follows closes at the first fence. */
  lemma BodyFirstFence<X>(t: string, c: nat, k: (nat, nat) -> Option<X>)
    requires forall a: nat, b: nat :: k(a, b).Some?
    ensures Body(t, c, k) == match Find(t, Fence, c) case Some(ce) => k(ce, ce + 3) case None => None
  {
  }

  /** The replacement block after the `With:` line spans up to the first fence. */
  lemma WithOpenAt(t: string, g: nat)
    ensures WithOpenK(t)(g) == match OpeningEnd(t, g, "With:")
                               case None => None
                               case Some(c2) => (match Find(t, Fence, c2) case None => None case Some(ce2) => Some((c2, ce2)))
  {
    OpeningIsPattern(t, g, "With:", ReplaceK(t));
    if OpeningEnd(t, g, "With:").Some? {
      var c2 := OpeningEnd(t, g, "With:").value;
      BodyFirstFence(t, c2, SpanK(c2));
    }
  }

  /** A match of what follows `\s*` in `WithPattern` starts with a newline and `With:`. */
  lemma WithLineAt(t: string, f: nat)
    requires WithLineK(t)(f).Some?
    ensures f + 1 < |t| && t[f] == '\n' && t[f + 1] == 'W'
  {
    assert OccursAt(t, "\n", f) && WithOpenK(t)(f + 1).Some?;
    WithOpenAt(t, f + 1);
    assert t[f] == t[f..f + 1][0] && t[f + 1] == t[f + 1..f + 6][0];
  }

  /** What follows `\s*` in `WithPattern` starts with a newline and then `W`, which is not whitespace. */
  lemma WithLineStarts(t: string)
    ensures forall f: nat :: WithLineK(t)(f).Some? ==> f + 1 < |t| && t[f] == '\n' && !IsSpace(t[f + 1])
  {
    forall f: nat | WithLineK(t)(f).Some? ensures f + 1 < |t| && t[f] == '\n' && !IsSpace(t[f + 1]) {
      WithLineAt(t, f);
    }
  }

  /** `WithSpan` is what the backtracking engine finds for the part after the search block. */
  lemma WithSpanIsPattern(t: string, e: nat)
    ensures WithPattern(t, e) == WithSpan(t, e)
  {
    WithLineStarts(t);
    StarSpacesNewline(t, e, WithLineK(t));
    if SpacesNewline(t, e).Some? {
      var g := SpacesNewline(t, e).value;
      assert t[g - 1..g] == "\n";
      assert WithLineK(t)(g - 1) == WithOpenK(t)(g);
      WithOpenAt(t, g);
    }
  }

  /** A greedy quantifier whose continuation succeeds at one position `m` at most of the range it
      tries ends there. */
  lemma {:induction false} DownAt<X>(lo: nat, j: nat, k: nat -> Option<X>, m: nat)
    requires lo <= m <= j
    requires forall m' :: lo <= m' <= j && m' != m ==> k(m').None?
    decreases j
    ensures Down(lo, j, k) == k(m)
  {
    if j > m {
      DownAt(lo, j - 1, k, m);
    } else if k(m).None? && m > lo {
      assert Down(lo, m - 1, k).None?;
    }
  }

  /** `\s*` before a newline that a non-space follows ends once only: as `SpacesNewline` says. */
  lemma StarSpacesNewline<X>(t: string, i: nat, k: nat -> Option<X>)
    requires forall f: nat :: k(f).Some? ==> f + 1 < |t| && t[f] == '\n' && !IsSpace(t[f + 1])
    ensures Star(t, i, IsSpace, k) == match SpacesNewline(t, i) case Some(g) => k(g - 1) case None => None
  {
    if i <= |t| {
      var b := RunEnd(t, i, IsSpace);
      forall m | i <= m <= b && m + 1 != b ensures k(m).None? {
        assert m + 1 < b ==> IsSpace(t[m + 1]);
      }
      if i < b {
        DownAt(i, b, k, b - 1);
      } else {
        DownAt(i, b, k, b);
      }
    }
  }

  /** `\w*` before a newline ends at the end of the run of word characters. */
  lemma StarWordNewline<X>(t: string, d: nat, k: nat -> Option<X>)
    requires forall m: nat :: k(m).Some? ==> m < |t| && t[m] == '\n'
    ensures Star(t, d, IsWord, k) == if d <= |t| then k(RunEnd(t, d, IsWord)) else None
  {
    if d <= |t| {
      DownAt(d, RunEnd(t, d, IsWord), k, RunEnd(t, d, IsWord));
    }
  }

  /** The search block that starts at `c` closes at the fence at `ce`: the first fence after which
      the rest of the pattern matches. */
  predicate SearchEnd(t: string, c: nat, ce: nat) {
    && c <= ce && OccursAt(t, Fence, ce) && WithSpan(t, ce + 3).Some?
    && forall m :: c <= m < ce ==> NoCloseAt(t, m)
  }

  /** The fence-and-rest part of a modification does not match at `m`. */
  predicate NoCloseAt(t: string, m: nat) {
    OccursAt(t, Fence, m) ==> WithSpan(t, m + 3).None?
  }

  /** `(?P<search>.*?)```` followed by the rest of the pattern, from `j`: the lazy block tries each
      end in turn and closes at the first fence after which the rest matches, as `Body` does. */
  function SearchClose(t: string, j: nat): (r: Option<nat>)
    decreases |t| - j
    ensures r.Some? ==> SearchEnd(t, j, r.value)
  {
    if j + |Fence| > |t| then None
    else if OccursAt(t, Fence, j) && WithSpan(t, j + 3).Some? then Some(j)
    else
      var rest := SearchClose(t, j + 1);
      if rest.Some? then SearchEndStep(t, j, rest.value); rest else rest
  }

  /** A search block that does not close at `j` closes where the one that starts at `j + 1` does. */
  lemma SearchEndStep(t: string, j: nat, ce: nat)
    requires !(OccursAt(t, Fence, j) && WithSpan(t, j + 3).Some?)
    requires SearchEnd(t, j + 1, ce)
    ensures SearchEnd(t, j, ce)
  {
    assert NoCloseAt(t, j);
  }

  /** What the lazy search block hands on: its end, when the rest of the pattern matches after the fence. */
  function CloseK(t: string): (nat, nat) -> Option<nat> {
    (ce: nat, e: nat) => if WithPattern(t, e).Some? then Some(ce) else None
  }

  /** `SearchClose` is the lazy block of `Body` followed by the backtracking form of the rest. */
  lemma {:induction false} SearchCloseIsBody(t: string, j: nat)
    decreases |t| - j
    ensures SearchClose(t, j) == Body(t, j, CloseK(t))
  {
    if j + |Fence| <= |t| {
      WithSpanIsPattern(t, j + 3);
      assert CloseK(t)(j, j + 3).Some? <==> WithSpan(t, j + 3).Some?;
      if !(OccursAt(t, Fence, j) && WithSpan(t, j + 3).Some?) {
        SearchCloseIsBody(t, j + 1);
      }
    }
  }

  /** When the search block closes nowhere, the fence-and-rest part matches after no fence. */
  lemma {:induction false} SearchCloseNone(t: string, j: nat)
    requires SearchClose(t, j).None?
    decreases |t| - j
    ensures forall m :: j <= m ==> NoCloseAt(t, m)
  {
    if j + |Fence| <= |t| {
      SearchCloseNone(t, j + 1);
      forall m | j <= m ensures NoCloseAt(t, m) {
        if m == j {
          assert !(OccursAt(t, Fence, j) && WithSpan(t, j + 3).Some?);
        }
      }
    }
  }

  /** The groups of a modification whose search block starts at `c` and closes at `ce`: the search
      text, and the replacement block that follows, whose closing fence ends the match. */
  predicate ModifyGroups(t: string, c: nat, ce: nat, f: Found) {
    && f.ModifyMatch? && SearchEnd(t, c, ce) && f.search == t[c..ce]
    && Block(t, WithSpan(t, ce + 3).value.0, WithSpan(t, ce + 3).value.1, f.replace)
    && f.end == WithSpan(t, ce + 3).value.1 + 3
  }

  /** `(?P<search>.*?)```\s*\nWith:...` from `c`. */
  function ModifySearch(t: string, p: nat, ps: nat, pe: nat, c: nat): (r: Option<Found>)
    ensures r.Some? ==> r.value.ModifyMatch? && r.value.start == p && c < r.value.end <= |t|
                        && r.value.path == Slice(t, ps, pe) && FenceFree(r.value.replace)
                        && exists ce: nat :: ModifyGroups(t, c, ce, r.value)
  {
    match SearchClose(t, c)
    case None => None
    case Some(ce) =>
      var sp := WithSpan(t, ce + 3).value;
      FirstFenceFree(t, sp.0, sp.1);
      var r := ModifyMatch(p, sp.1 + 3, Slice(t, ps, pe), t[c..ce], t[sp.0..sp.1]);
      assert ModifyGroups(t, c, ce, r);
      Some(r)
  }

  /** The two blocks of a modification whose header ends at `n`: the search block starts where the
      `Replace:` opening line ends. */
  ghost predicate ReplaceGroups(t: string, n: nat, f: Found) {
    OpeningEnd(t, n, "Replace:").Some? && exists ce: nat :: ModifyGroups(t, OpeningEnd(t, n, "Replace:").value, ce, f)
  }

  /** After a header that ends at `n` come a `Replace:` opening line and a search block that closes
      at a fence after which the rest of the pattern matches. */
  predicate SearchCloses(t: string, n: nat) {
    OpeningEnd(t, n, "Replace:").Some? && SearchClose(t, OpeningEnd(t, n, "Replace:").value).Some?
  }

  /** `mod_pattern` matches at `p`: an `Updated path:` header, then a search block that closes. */
  ghost predicate ModifyHolds(t: string, p: nat) {
    exists ps: nat, pe: nat, n: nat :: HeaderSpan(t, p, "Updated path:", ps, pe, n) && SearchCloses(t, n)
  }

  /** `Replace:\s*\n```(?:\w+)?\n(?P<search>.*?)```...` after an `Updated path:` header that ends at `n`. */
  function ModifyRest(t: string, p: nat, ps: nat, pe: nat, n: nat): (r: Option<Found>)
    ensures r.Some? ==> r.value.ModifyMatch? && r.value.start == p && n < r.value.end <= |t|
                        && r.value.path == Slice(t, ps, pe) && FenceFree(r.value.replace)
                        && ReplaceGroups(t, n, r.value)
    ensures r.Some? <==> SearchCloses(t, n)
  {
    match OpeningEnd(t, n, "Replace:")
    case None => None
    case Some(c) => ModifySearch(t, p, ps, pe, c)
  }

  /** `mod_pattern.match(t, p)`: `Updated path:\s*(?P<path>[^\n]+)\s*\n`
      `Replace:\s*\n```(?:\w+)?\n(?P<search>.*?)```\s*\n` `With:\s*\n```(?:\w+)?\n(?P<replace>.*?)````.
      The path is a line of the header; the search block starts where the `Replace:` opening line ends
      and closes at the first fence after which the rest of the pattern matches; the replacement block
      closes at the first fence after it starts. */
  function ModifyAt(t: string, p: nat): (r: Option<Found>)
    ensures r.Some? ==> r.value.ModifyMatch? && r.value.start == p && p < r.value.end <= |t|
    ensures r.Some? ==> FenceFree(r.value.replace)
    ensures r.Some? ==> exists ps: nat, pe: nat, n: nat :: && HeaderSpan(t, p, "Updated path:", ps, pe, n)
                                                          && r.value.path == t[ps..pe] && ReplaceGroups(t, n, r.value)
    ensures r.Some? <==> ModifyHolds(t, p)
  {
    var rest := (ps: nat, pe: nat, n: nat) => ModifyRest(t, p, ps, pe, n);
    var r := Header(t, p, "Updated path:", rest);
    assert r.Some? ==> exists ps: nat, pe: nat, n: nat :: HeaderSpan(t, p, "Updated path:", ps, pe, n) && r == ModifyRest(t, p, ps, pe, n);
    assert ModifyHolds(t, p) ==> r.Some? by {
      if ModifyHolds(t, p) {
        var ps: nat, pe: nat, n: nat :| HeaderSpan(t, p, "Updated path:", ps, pe, n) && SearchCloses(t, n);
        assert rest(ps, pe, n).Some?;
      }
    }
    r
  }

  /** A `New:` reply with path "a" and content "xy". */
  const NewExample: string := "New: a\nContent:\n```\nxy```"

  /** In `NewExample` the only `Content:` line starts at 7. */
  lemma NewExampleIntro(n: nat)
    requires OccursAt(NewExample, "Content:", n)
    ensures n == 7
  {
    assert NewExample[n] == NewExample[n..n + 8][0];
  }

  /** In `NewExample` the content block starts at 20. */
  lemma NewExampleOpening()
    ensures OpeningEnd(NewExample, 7, "Content:") == Some(20)
  {
    assert NewExample[7..15] == "Content:";
    assert RunEnd(NewExample, 16, IsSpace) == 16;
    assert RunEnd(NewExample, 15, IsSpace) == 16;
    assert NewExample[16..19] == Fence;
    assert RunEnd(NewExample, 19, IsWord) == 19;
  }

  /** In `NewExample` the first fence after 20 is at 22. */
  lemma NewExampleClose(ce: nat)
    requires FirstFence(NewExample, 20, ce)
    ensures ce == 22
  {
    assert NewExample[22..25] == Fence;
    assert NewExample[20..23][0] == 'x' && NewExample[21..24][0] == 'y';
    assert NewExample[ce] == NewExample[ce..ce + 3][0];
  }

  /** Any match that meets the contract of `NewFileAt` on `NewExample` has content "xy" and covers the
      whole text: the content is neither empty nor taken from another fence. */
  lemma NewFileGroupsExample(f: Found)
    requires exists ps: nat, pe: nat, n: nat :: && HeaderSpan(NewExample, 0, "New:", ps, pe, n)
                                                && f.path == NewExample[ps..pe] && ContentGroups(NewExample, n, f)
    ensures f.content == "xy" && f.end == |NewExample|
  {
    var ps: nat, pe: nat, n: nat :| && HeaderSpan(NewExample, 0, "New:", ps, pe, n)
                                    && f.path == NewExample[ps..pe] && ContentGroups(NewExample, n, f);
    NewExampleContent(n, f);
  }

  /** The content groups of `NewExample` hold "xy" and end the match at the end of the text. */
  lemma NewExampleContent(n: nat, f: Found)
    requires ContentGroups(NewExample, n, f)
    ensures f.content == "xy" && f.end == |NewExample|
  {
    NewExampleIntro(n);
    NewExampleOpening();
    var ce: nat :| Block(NewExample, 20, ce, f.content) && f.end == ce + 3;
    NewExampleClose(ce);
  }

  /** `NewExample` is found: its header ends at 7, and a fence follows the opening line. */
  lemma NewFileFoundExample()
    ensures NewFileAt(NewExample, 0).Some?
  {
    NewExampleOpening();
    assert NewExample[22..25] == Fence;
    assert Find(NewExample, Fence, 20).Some?;
    NewExampleHeader();
  }

  /** The header of `NewExample` is "New:", a space, the path "a" and a newline. */
  lemma NewExampleHeader()
    ensures HeaderSpan(NewExample, 0, "New:", 5, 6, 7)
  {
    assert NewExample[..7] == "New: a\n";
    assert NewExample[0..4] == "New:";
  }

  /** A `Delete:` line whose whitespace runs over a newline. */
  const DeleteExample: string := "Delete:  \nx"

  /** On `DeleteExample` the greedy `\s*` takes both spaces and the newline, so the path is "x". */
  lemma DeleteFoundExample()
    ensures DeleteAt(DeleteExample, 0).Some? && DeleteAt(DeleteExample, 0).value.path == "x"
  {
    var t := DeleteExample;
    assert t[0..7] == "Delete:";
    assert Spaces(t, 7, 10) && t[10] == 'x';
    assert DeleteHolds(t, 0);
    var r := DeleteAt(t, 0).value;
    var ps: nat :| DeleteStart(t, 0, ps) && LineAt(t, ps, r.end) && r.path == t[ps..r.end];
    assert ps == 10 && r.end == 11;
  }

  /** A non-empty piece of text within one line: what `(?P<path>[^\n]+)` captures. */
  predicate SingleLine(s: string) {
    s != [] && forall i :: 0 <= i < |s| ==> s[i] != '\n'
  }

  /** `f` is a match of the kind `pat` yields: its path is one line, and a new file's content or a
      modification's replacement holds no fence. */
  predicate Fits(pat: Pattern, f: Found) {
    && SingleLine(f.path)
    && match pat
       case NewFilePattern => f.CreateMatch? && FenceFree(f.content)
       case DeletePattern => f.DeleteMatch?
       case ModPattern => f.ModifyMatch? && FenceFree(f.replace)
  }

  /** A line captured from `t` is a single line. */
  lemma LineIsSingle(t: string, ps: nat, pe: nat)
    requires LineAt(t, ps, pe)
    ensures SingleLine(t[ps..pe])
  {
    assert forall i :: 0 <= i < pe - ps ==> t[ps..pe][i] == t[ps + i];
  }

  /** The match found, if any, has the shape of its pattern. */
  lemma FoundFits(pat: Pattern, t: string, p: nat, r: Option<Found>)
    requires r == match pat
                  case NewFilePattern => NewFileAt(t, p)
                  case DeletePattern => DeleteAt(t, p)
                  case ModPattern => ModifyAt(t, p)
    ensures r.Some? ==> r.value.start == p && p < r.value.end <= |t| && Fits(pat, r.value)
  {
    if r.Some? {
      match pat
      case DeletePattern =>
        var ps: nat :| LineAt(t, ps, r.value.end) && r.value.path == t[ps..r.value.end];
        LineIsSingle(t, ps, r.value.end);
      case NewFilePattern =>
        var ps: nat, pe: nat, n: nat :| HeaderSpan(t, p, "New:", ps, pe, n) && r.value.path == t[ps..pe];
        LineIsSingle(t, ps, pe);
      case ModPattern =>
        var ps: nat, pe: nat, n: nat :| HeaderSpan(t, p, "Updated path:", ps, pe, n) && r.value.path == t[ps..pe];
        LineIsSingle(t, ps, pe);
    }
  }

  /** The pattern `pat` matches `t` at `p`. */
  ghost predicate PatternAt(pat: Pattern, t: string, p: nat) {
    match pat
    case NewFilePattern => NewFileHolds(t, p)
    case DeletePattern => DeleteHolds(t, p)
    case ModPattern => ModifyHolds(t, p)
  }

  /** `pattern.match(t, p)` for one of the three patterns. */
  function MatchAt(pat: Pattern, t: string, p: nat): (r: Option<Found>)
    ensures r.Some? ==> r.value.start == p && p < r.value.end <= |t| && Fits(pat, r.value)
  {
    var r := match pat
      case NewFilePattern => NewFileAt(t, p)
      case DeletePattern => DeleteAt(t, p)
      case ModPattern => ModifyAt(t, p);
    FoundFits(pat, t, p, r);
    r
  }

  /** `pattern.match` finds a match exactly where the pattern is present. */
  lemma MatchAtIff(pat: Pattern, t: string, p: nat)
    ensures MatchAt(pat, t, p).Some? <==> PatternAt(pat, t, p)
  {
  }

  /** `matcher` is `pattern.match` on a text of length `n`: a match at a position `q <= n` starts at
      `q` and ends past it, within the text. */
  predicate Advances(matcher: nat -> Option<Found>, n: nat) {
    forall q: nat :: q <= n && matcher(q).Some? ==> matcher(q).value.start == q && q < matcher(q).value.end <= n
  }

  /** No match starts anywhere in `[a, b)`. */
  predicate NoMatchIn(matcher: nat -> Option<Found>, a: nat, b: nat) {
    forall q: nat :: a <= q < b ==> matcher(q).None?
  }

  /** The loop of `finditer` from position `from`: the leftmost match, then the leftmost match that
      starts where it ended, and so on, for positions up to `n` inclusive. */
  function FindAll(matcher: nat -> Option<Found>, n: nat, from: nat): (r: seq<Found>)
    requires Advances(matcher, n)
    decreases n + 1 - from
    ensures forall k :: 0 <= k < |r| ==> from <= r[k].start && matcher(r[k].start) == Some(r[k])
    ensures forall k :: 0 <= k < |r| - 1 ==> r[k].end <= r[k + 1].start
  {
    if from > n then []
    else match matcher(from)
      case Some(m) => [m] + FindAll(matcher, n, m.end)
      case None => FindAll(matcher, n, from + 1)
  }

  /** `finditer` skips no match before the first one it reports, and none at all when it reports none. */
  lemma {:induction false} FindAllHead(matcher: nat -> Option<Found>, n: nat, from: nat)
    requires Advances(matcher, n)
    decreases n + 1 - from
    ensures var r := FindAll(matcher, n, from);
            NoMatchIn(matcher, from, if r == [] then n + 1 else r[0].start)
  {
    if from <= n && matcher(from).None? {
      FindAllHead(matcher, n, from + 1);
    }
  }

  /** `finditer` skips no match after the last one it reports. */
  lemma {:induction false} FindAllTail(matcher: nat -> Option<Found>, n: nat, from: nat)
    requires Advances(matcher, n)
    decreases n + 1 - from
    ensures var r := FindAll(matcher, n, from);
            r != [] ==> NoMatchIn(matcher, r[|r| - 1].end, n + 1)
  {
    if from <= n {
      match matcher(from)
      case Some(m) =>
        var rest := FindAll(matcher, n, m.end);
        assert FindAll(matcher, n, from) == [m] + rest;
        FindAllTail(matcher, n, m.end);
        if rest == [] {
          FindAllHead(matcher, n, m.end);
        }
      case None =>
        assert FindAll(matcher, n, from) == FindAll(matcher, n, from + 1);
        FindAllTail(matcher, n, from + 1);
    }
  }

  /** `finditer` skips no match between two consecutive ones it reports. */
  lemma {:induction false} FindAllGaps(matcher: nat -> Option<Found>, n: nat, from: nat)
    requires Advances(matcher, n)
    decreases n + 1 - from
    ensures var r := FindAll(matcher, n, from);
            forall k :: 0 <= k < |r| - 1 ==> NoMatchIn(matcher, r[k].end, r[k + 1].start)
  {
    if from <= n {
      match matcher(from)
      case Some(m) =>
        FindAllGaps(matcher, n, m.end);
        FindAllHead(matcher, n, m.end);
        var rest := FindAll(matcher, n, m.end);
        var r := FindAll(matcher, n, from);
        assert r == [m] + rest;
        forall k | 0 <= k < |r| - 1
          ensures NoMatchIn(matcher, r[k].end, r[k + 1].start)
        {
          if k > 0 {
            assert r[k] == rest[k - 1] && r[k + 1] == rest[k];
          }
        }
      case None =>
        FindAllGaps(matcher, n, from + 1);
        assert FindAll(matcher, n, from) == FindAll(matcher, n, from + 1);
    }
  }

  /** `pattern.match` at each position of `t`. */
  function Matcher(pat: Pattern, t: string): (r: nat -> Option<Found>)
    ensures Advances(r, |t|)
    ensures forall q: nat :: r(q) == MatchAt(pat, t, q)
  {
    (q: nat) => MatchAt(pat, t, q)
  }

  /** `pattern.finditer(t)`: the matches reported over the whole text, in order and without overlap. */
  function Matches(pat: Pattern, t: string): (r: seq<Found>)
    ensures forall k :: 0 <= k < |r| ==> r[k].start < r[k].end <= |t| && Fits(pat, r[k])
    ensures forall k :: 0 <= k < |r| - 1 ==> r[k].end <= r[k + 1].start
  {
    FindAll(Matcher(pat, t), |t|, 0)
  }

  /** The pattern `pat` matches `t` at no position in `[a, b)`. */
  ghost predicate Absent(pat: Pattern, t: string, a: nat, b: nat) {
    forall q: nat :: a <= q < b ==> !PatternAt(pat, t, q)
  }

  /** Where `pattern.match` finds nothing, the pattern is absent. */
  lemma AbsentWhereNoMatch(pat: Pattern, t: string, a: nat, b: nat)
    requires NoMatchIn(Matcher(pat, t), a, b)
    ensures Absent(pat, t, a, b)
  {
    forall q: nat | a <= q < b ensures !PatternAt(pat, t, q) {
      assert Matcher(pat, t)(q).None?;
      MatchAtIff(pat, t, q);
    }
  }

  /** The pattern is present nowhere before the first match `finditer` reports. */
  lemma MatchesHead(pat: Pattern, t: string)
    ensures var r := Matches(pat, t);
            Absent(pat, t, 0, if r == [] then |t| + 1 else r[0].start)
  {
    var r := Matches(pat, t);
    FindAllHead(Matcher(pat, t), |t|, 0);
    AbsentWhereNoMatch(pat, t, 0, if r == [] then |t| + 1 else r[0].start);
  }

  /** `Matches` is what `finditer` reports: each match is the one `pattern.match` finds at its start;
      `pattern.match` finds nothing before the first, between two consecutive ones, or after the last.
      By `MatchAtIff`, the pattern is present at none of those positions. */
  lemma MatchesAreFinditer(pat: Pattern, t: string)
    ensures var r := Matches(pat, t);
            && (forall k :: 0 <= k < |r| ==> MatchAt(pat, t, r[k].start) == Some(r[k]))
            && (forall q: nat :: q <= |t| && (r == [] || q < r[0].start) ==> MatchAt(pat, t, q).None?)
            && (forall k, q: nat :: 0 <= k < |r| - 1 && r[k].end <= q < r[k + 1].start ==> MatchAt(pat, t, q).None?)
            && (r != [] ==> forall q: nat :: r[|r| - 1].end <= q <= |t| ==> MatchAt(pat, t, q).None?)
  {
    FindAllHead(Matcher(pat, t), |t|, 0);
    FindAllGaps(Matcher(pat, t), |t|, 0);
    FindAllTail(Matcher(pat, t), |t|, 0);
  }

  /** `finditer` reports nothing exactly when the pattern is present nowhere in the text. */
  lemma MatchesEmptyIff(pat: Pattern, t: string)
    ensures Matches(pat, t) == [] <==> Absent(pat, t, 0, |t| + 1)
  {
    MatchesHead(pat, t);
    var r := Matches(pat, t);
    if r != [] {
      MatchAtIff(pat, t, r[0].start);
    }
  }
}
