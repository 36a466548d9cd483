/** Optional values, standing in for Python's `None`. */
module Wrappers {
  datatype Option<+T> = None | Some(value: T)
}

/** The Python `str` operations the patch engine relies on. */
module Text {
  import opened Wrappers

  /** `c.isspace()`; the regular-expression class `\s` on a `str` pattern matches the same characters. */
  predicate IsSpace(c: char) {
    ('\t' <= c <= '\r') || ('\U{1C}' <= c <= ' ') || c == '\U{85}' || c == '\U{A0}' || c == '\U{1680}'
    || ('\U{2000}' <= c <= '\U{200A}') || c == '\U{2028}' || c == '\U{2029}' || c == '\U{202F}'
    || c == '\U{205F}' || c == '\U{3000}'
  }

  /** The regular-expression class `\w`, restricted to ASCII. */
  predicate IsWord(c: char) {
    ('a' <= c <= 'z') || ('A' <= c <= 'Z') || ('0' <= c <= '9') || c == '_'
  }

  /** `pat` occurs in `s` starting at index `i`. */
  predicate OccursAt(s: string, pat: string, i: nat) {
    i + |pat| <= |s| && s[i..i + |pat|] == pat
  }

  /** `s.startswith(p)` */
  predicate StartsWith(s: string, p: string) {
    |p| <= |s| && s[..|p|] == p
  }

  /** `s.find(pat, from)`: the leftmost occurrence of `pat` at or after `from`. */
  function Find(s: string, pat: string, from: nat): (r: Option<nat>)
    decreases |s| - from
    ensures r.Some? ==> from <= r.value && OccursAt(s, pat, r.value)
    ensures r.Some? ==> forall j :: from <= j < r.value ==> !OccursAt(s, pat, j)
    ensures r.None? ==> forall j :: from <= j ==> !OccursAt(s, pat, j)
  {
    if from + |pat| > |s| then None
    else if OccursAt(s, pat, from) then Some(from)
    else Find(s, pat, from + 1)
  }

  /** `pat in s` */
  predicate Contains(s: string, pat: string) {
    Find(s, pat, 0).Some?
  }

  /** `pat in s` holds exactly when `pat` occurs at some index. */
  lemma ContainsIff(s: string, pat: string)
    ensures Contains(s, pat) <==> exists j :: OccursAt(s, pat, j)
  {
    if Contains(s, pat) {
      assert OccursAt(s, pat, Find(s, pat, 0).value);
    }
  }

  /** An occurrence inside a slice is an occurrence in the whole string. */
  lemma OccursInSlice(s: string, pat: string, a: nat, b: nat, j: nat)
    requires a <= b <= |s|
    requires OccursAt(s[a..b], pat, j)
    ensures OccursAt(s, pat, a + j)
  {
    forall k | 0 <= k < |pat| ensures s[a + j..a + j + |pat|][k] == pat[k] {
      assert s[a..b][j..j + |pat|][k] == pat[k];
    }
  }

  /** `rep` before every character of `s` and once more at the end: what `s.replace("", rep)` yields. */
  function Interleave(s: string, rep: string): (r: string)
    ensures |r| == |s| + (|s| + 1) * |rep|
  {
    if s == [] then rep else rep + [s[0]] + Interleave(s[1..], rep)
  }

  /** In `s.replace("", rep)` each character of `s` comes after one more copy of `rep`, in order. */
  lemma {:induction false} InterleaveOrder(s: string, rep: string, k: nat)
    requires k < |s|
    decreases |s|
    ensures Interleave(s, rep)[k * (|rep| + 1) + |rep|] == s[k]
  {
    if k > 0 {
      InterleaveOrder(s[1..], rep, k - 1);
      assert (k - 1) * (|rep| + 1) + |rep| + |rep| + 1 == k * (|rep| + 1) + |rep|;
    }
  }

  /** In `s.replace("", rep)` the gap before character `k` of `s`, and the gap at the end, hold a
      copy of `rep`. */
  lemma {:induction false} InterleaveGaps(s: string, rep: string, k: nat)
    requires k <= |s|
    decreases |s|
    ensures Interleave(s, rep)[k * (|rep| + 1)..k * (|rep| + 1) + |rep|] == rep
  {
    if k > 0 {
      InterleaveGaps(s[1..], rep, k - 1);
      var o := |rep| + 1;
      assert (k - 1) * o + o == k * o;
      assert Interleave(s, rep) == (rep + [s[0]]) + Interleave(s[1..], rep);
    }
  }

  /** `s.replace(pat, rep)`: every occurrence, found left to right without overlap, replaced. */
  function Replace(s: string, pat: string, rep: string): (r: string)
    decreases |s|
    ensures pat == [] ==> |r| == |s| + (|s| + 1) * |rep|
    ensures pat != [] && |rep| <= |pat| ==> |r| <= |s|
    ensures pat != [] && |rep| >= |pat| ==> |r| >= |s|
  {
    if pat == [] then Interleave(s, rep)
    else if s == [] then []
    else if OccursAt(s, pat, 0) then rep + Replace(s[|pat|..], pat, rep)
    else [s[0]] + Replace(s[1..], pat, rep)
  }

  /** `s.split(pat)` for a non-empty separator: the pieces between the occurrences. */
  function Split(s: string, pat: string): (parts: seq<string>)
    requires pat != []
    decreases |s|
    ensures |parts| >= 1
    ensures forall k :: 0 <= k < |parts| ==> !Contains(parts[k], pat)
  {
    match Find(s, pat, 0)
    case None => [s]
    case Some(i) =>
      assert !Contains(s[..i], pat) by {
        forall j | OccursAt(s[..i], pat, j) ensures false {
          OccursInSlice(s, pat, 0, i, j);
        }
      }
      [s[..i]] + Split(s[i + |pat|..], pat)
  }

  /** `sep.join(parts)` */
  function JoinWith(parts: seq<string>, sep: string): string
    decreases |parts|
  {
    if |parts| == 0 then []
    else if |parts| == 1 then parts[0]
    else parts[0] + sep + JoinWith(parts[1..], sep)
  }

  /** Dropping the first character shifts every occurrence one place to the left. */
  lemma OccursShift(s: string, pat: string, j: nat)
    requires s != []
    ensures OccursAt(s[1..], pat, j) <==> OccursAt(s, pat, j + 1)
  {
    if j + 1 + |pat| <= |s| {
      assert s[1..][j..j + |pat|] == s[j + 1..j + 1 + |pat|];
    }
  }

  /** Scanning past a prefix that holds no occurrence copies that prefix unchanged. */
  lemma {:induction false} ReplaceSkips(s: string, pat: string, rep: string, i: nat)
    requires pat != [] && i <= |s|
    requires forall j :: 0 <= j < i ==> !OccursAt(s, pat, j)
    ensures Replace(s, pat, rep) == s[..i] + Replace(s[i..], pat, rep)
  {
    if i > 0 {
      var t := s[1..];
      assert !OccursAt(s, pat, 0);
      assert Replace(s, pat, rep) == [s[0]] + Replace(t, pat, rep);
      forall j | 0 <= j < i - 1 ensures !OccursAt(t, pat, j) {
        OccursShift(s, pat, j);
      }
      ReplaceSkips(t, pat, rep, i - 1);
      assert t[i - 1..] == s[i..];
      var rest := Replace(s[i..], pat, rep);
      assert [s[0]] + (t[..i - 1] + rest) == ([s[0]] + t[..i - 1]) + rest;
      ConsPrefix(s, i);
    }
  }

  /** The first `i` characters of a string are its first character and then `i - 1` more. */
  lemma ConsPrefix(s: string, i: nat)
    requires 0 < i <= |s|
    ensures s[..i] == [s[0]] + s[1..][..i - 1]
  {
  }

  /** Joining a non-empty list behind a first piece puts one separator between them. */
  lemma JoinCons(a: string, parts: seq<string>, sep: string)
    requires |parts| >= 1
    ensures JoinWith([a] + parts, sep) == a + sep + JoinWith(parts, sep)
  {
    assert ([a] + parts)[1..] == parts;
  }

  /** The pieces of `s` around its first occurrence of `pat`. */
  lemma SplitAtFirst(s: string, pat: string, i: nat)
    requires pat != [] && Find(s, pat, 0) == Some(i)
    ensures i + |pat| <= |s|
    ensures Split(s, pat) == [s[..i]] + Split(s[i + |pat|..], pat)
    ensures s == s[..i] + pat + s[i + |pat|..]
  {
    SliceAround(s, i, i + |pat|);
  }

  /** A one-character needle is found nowhere in a text without that character. */
  lemma NoCharNoFind(s: string, c: char)
    requires c !in s
    ensures Find(s, [c], 0).None?
  {
    forall j | 0 <= j < |s| ensures !OccursAt(s, [c], j) {
      assert s[j..j + 1] == [s[j]];
    }
  }

  /** Splitting, on one character, parts joined with that character gives the parts back, as long
      as no part holds the character. */
  lemma {:induction false} JoinSplitRoundTrip(parts: seq<string>, c: char)
    requires |parts| >= 1
    requires forall k :: 0 <= k < |parts| ==> c !in parts[k]
    decreases |parts|
    ensures Split(JoinWith(parts, [c]), [c]) == parts
  {
    if |parts| == 1 {
      NoCharNoFind(parts[0], c);
    } else {
      var p0 := parts[0];
      var rest := JoinWith(parts[1..], [c]);
      var s := JoinWith(parts, [c]);
      assert s == p0 + [c] + rest;
      assert OccursAt(s, [c], |p0|) by {
        assert s[|p0|..|p0| + 1] == [c];
      }
      forall j | 0 <= j < |p0| ensures !OccursAt(s, [c], j) {
        assert s[j..j + 1] == [p0[j]];
      }
      SplitAtFirst(s, [c], |p0|);
      assert s[..|p0|] == p0;
      assert s[|p0| + 1..] == rest;
      JoinSplitRoundTrip(parts[1..], c);
      assert [p0] + parts[1..] == parts;
    }
  }


  /** A string is its three slices around `[i..j]`. */
  lemma SliceAround(s: string, i: nat, j: nat)
    requires i <= j <= |s|
    ensures s == s[..i] + s[i..j] + s[j..]
  {
  }

  /** `s.replace(pat, rep) == rep.join(s.split(pat))`: every occurrence is replaced, and nothing else changes. */
  lemma {:induction false} ReplaceIsSplitJoin(s: string, pat: string, rep: string)
    requires pat != []
    decreases |s|
    ensures Replace(s, pat, rep) == JoinWith(Split(s, pat), rep)
  {
    match Find(s, pat, 0)
    case None =>
      ReplaceSkips(s, pat, rep, |s|);
      assert s[..|s|] == s;
      assert s[|s|..] == [];
    case Some(i) =>
      SplitAtFirst(s, pat, i);
      var rest := s[i + |pat|..];
      ReplaceSkips(s, pat, rep, i);
      assert s[i..][|pat|..] == rest;
      assert OccursAt(s[i..], pat, 0) by { assert s[i..][..|pat|] == s[i..i + |pat|]; }
      assert Replace(s[i..], pat, rep) == rep + Replace(rest, pat, rep);
      ReplaceIsSplitJoin(rest, pat, rep);
      JoinCons(s[..i], Split(rest, pat), rep);
  }

  /** Splitting on `pat` and joining with `pat` gives back the original string. */
  lemma {:induction false} SplitJoinRoundTrip(s: string, pat: string)
    requires pat != []
    decreases |s|
    ensures JoinWith(Split(s, pat), pat) == s
  {
    match Find(s, pat, 0)
    case None =>
    case Some(i) =>
      SplitAtFirst(s, pat, i);
      var rest := s[i + |pat|..];
      SplitJoinRoundTrip(rest, pat);
      JoinCons(s[..i], Split(rest, pat), pat);
  }

  /** When `pat` does not occur, `replace` leaves the string as it is. */
  lemma ReplaceMiss(s: string, pat: string, rep: string)
    requires pat != [] && !Contains(s, pat)
    ensures Replace(s, pat, rep) == s
  {
    ReplaceIsSplitJoin(s, pat, rep);
  }

  /** Replacing an occurrence by itself is the identity. */
  lemma ReplaceBySelf(s: string, pat: string)
    requires pat != []
    ensures Replace(s, pat, pat) == s
  {
    ReplaceIsSplitJoin(s, pat, pat);
    SplitJoinRoundTrip(s, pat);
  }

  /** A second `replace` can still find the pattern although `rep` does not contain it: the
      replacement joins a character before it with one after it into a new occurrence. */
  lemma SecondPassCanMatch()
    ensures !Contains("a", "ab") && Contains(Replace("aabb", "ab", "a"), "ab")
  {
    assert !OccursAt("a", "ab", 0);
    assert Replace("aabb", "ab", "a") == "aab" by {
      assert !OccursAt("aabb", "ab", 0);
      assert "aabb"[1..] == "abb";
      assert OccursAt("abb", "ab", 0);
      assert "abb"[2..] == "b";
      assert !OccursAt("b", "ab", 0);
      assert "b"[1..] == "";
    }
    assert OccursAt("aab", "ab", 1);
  }

  /** The index of the first character of `s` at or after `i` that is not whitespace (or `|s|`). */
  function SkipSpaces(s: string, i: nat): (a: nat)
    requires i <= |s|
    decreases |s| - i
    ensures i <= a <= |s|
    ensures forall k :: i <= k < a ==> IsSpace(s[k])
    ensures a < |s| ==> !IsSpace(s[a])
  {
    if i < |s| && IsSpace(s[i]) then SkipSpaces(s, i + 1) else i
  }

  /** The index just past the last character of `s[lo..j]` that is not whitespace (or `lo`). */
  function BackSpaces(s: string, lo: nat, j: nat): (b: nat)
    requires lo <= j <= |s|
    decreases j
    ensures lo <= b <= j
    ensures forall k :: b <= k < j ==> IsSpace(s[k])
    ensures b > lo ==> !IsSpace(s[b - 1])
  {
    if j > lo && IsSpace(s[j - 1]) then BackSpaces(s, lo, j - 1) else j
  }

  /** Every character of `s` is whitespace. */
  predicate AllSpace(s: string) {
    forall k :: 0 <= k < |s| ==> IsSpace(s[k])
  }

  /** Whitespace before `a` and from `b` on, seen as the slices around `s[a..b]`. */
  lemma SpacesAround(s: string, a: nat, b: nat)
    requires a <= b <= |s|
    requires forall k :: 0 <= k < a ==> IsSpace(s[k])
    requires forall k :: b <= k < |s| ==> IsSpace(s[k])
    ensures AllSpace(s[..a]) && AllSpace(s[b..])
  {
    assert forall k :: 0 <= k < a ==> s[..a][k] == s[k];
    assert forall k :: 0 <= k < |s| - b ==> s[b..][k] == s[b + k];
  }

  /** `s.strip()`: `s` without its leading and trailing whitespace. */
  function Strip(s: string): (r: string)
    ensures exists a: nat :: OccursAt(s, r, a) && AllSpace(s[..a]) && AllSpace(s[a + |r|..])
    ensures r != [] ==> !IsSpace(r[0]) && !IsSpace(r[|r| - 1])
  {
    var a := SkipSpaces(s, 0);
    var b := BackSpaces(s, a, |s|);
    SpacesAround(s, a, b);
    var r := s[a..b];
    assert OccursAt(s, r, a);
    assert r != [] ==> r[0] == s[a] && r[|r| - 1] == s[b - 1];
    r
  }
  /** Stripping adds no character: the result of `strip()` is a piece of its input. */
  lemma StripKeepsOut(s: string, c: char)
    requires c !in s
    ensures c !in Strip(s)
  {
    var r := Strip(s);
    var a: nat :| OccursAt(s, r, a) && AllSpace(s[..a]) && AllSpace(s[a + |r|..]);
    assert r == s[a..a + |r|];
  }


  /** Text that neither starts nor ends with whitespace is left alone by `strip`. */
  lemma StripTrimmed(s: string)
    requires s != [] ==> !IsSpace(s[0]) && !IsSpace(s[|s| - 1])
    ensures Strip(s) == s
  {
    assert SkipSpaces(s, 0) == 0;
    assert BackSpaces(s, 0, |s|) == |s|;
    assert s[0..|s|] == s;
  }

  /** A piece of `s` with only whitespace around it, which neither starts nor ends with whitespace
      itself, is what `strip` leaves of `s`. */
  lemma StripUnique(s: string, a: nat, r: string)
    requires OccursAt(s, r, a) && AllSpace(s[..a]) && AllSpace(s[a + |r|..])
    requires r != [] ==> !IsSpace(r[0]) && !IsSpace(r[|r| - 1])
    ensures Strip(s) == r
  {
    forall k | 0 <= k < a ensures IsSpace(s[k]) {
      assert s[..a][k] == s[k];
    }
    forall k | a + |r| <= k < |s| ensures IsSpace(s[k]) {
      assert s[a + |r|..][k - a - |r|] == s[k];
    }
    var x := SkipSpaces(s, 0);
    if r == [] {
      assert x == |s|;
    } else {
      assert s[a] == r[0] && s[a + |r| - 1] == r[|r| - 1];
      assert x == a;
      assert BackSpaces(s, a, |s|) == a + |r|;
    }
  }

  /** Whitespace around a text does not change what `strip` leaves of it. */
  lemma StripSurrounded(u: string, x: string, v: string)
    requires AllSpace(u) && AllSpace(v)
    ensures Strip(u + x + v) == Strip(x)
  {
    var r := Strip(x);
    var a: nat :| OccursAt(x, r, a) && AllSpace(x[..a]) && AllSpace(x[a + |r|..]);
    PaddedPiece(u, x, v, a, r);
  }

  /** The piece `r` of `x` at `a`, with whitespace around it, is a piece of `u + x + v` with
      whitespace around it. */
  lemma PaddedPiece(u: string, x: string, v: string, a: nat, r: string)
    requires AllSpace(u) && AllSpace(v)
    requires OccursAt(x, r, a) && AllSpace(x[..a]) && AllSpace(x[a + |r|..])
    requires r != [] ==> !IsSpace(r[0]) && !IsSpace(r[|r| - 1])
    ensures Strip(u + x + v) == r
  {
    var s := u + x + v;
    assert s[..|u| + a] == u + x[..a];
    assert s[|u| + a + |r|..] == x[a + |r|..] + v;
    assert s[|u| + a..|u| + a + |r|] == x[a..a + |r|];
    AllSpaceConcat(u, x[..a]);
    AllSpaceConcat(x[a + |r|..], v);
    StripUnique(s, |u| + a, r);
  }

  /** Two runs of whitespace make one. */
  lemma AllSpaceConcat(p: string, q: string)
    requires AllSpace(p) && AllSpace(q)
    ensures AllSpace(p + q)
  {
    forall k | 0 <= k < |p + q| ensures IsSpace((p + q)[k]) {
      if k >= |p| {
        assert (p + q)[k] == q[k - |p|];
      }
    }
  }

  /** Stripping twice is stripping once. */
  lemma StripIdempotent(s: string)
    ensures Strip(Strip(s)) == Strip(s)
  {
    StripTrimmed(Strip(s));
  }

  /** Stripping removes the padding around a name. */
  lemma StripPadded()
    ensures Strip(" x.txt\n") == "x.txt"
  {
    var raw := " x.txt\n";
    assert SkipSpaces(raw, 0) == 1;
    assert BackSpaces(raw, 1, 7) == 6;
  }

  /** Replacing one character by another, `s.replace(c, d)`, rewrites `s` position by position. */
  lemma {:induction false} ReplaceChar(s: string, c: char, d: char)
    ensures |Replace(s, [c], [d])| == |s|
    ensures forall i :: 0 <= i < |s| ==> Replace(s, [c], [d])[i] == if s[i] == c then d else s[i]
  {
    if s != [] {
      ReplaceChar(s[1..], c, d);
      assert OccursAt(s, [c], 0) <==> s[0] == c by {
        assert s[0..1] == [s[0]];
      }
      var t := Replace(s[1..], [c], [d]);
      assert Replace(s, [c], [d]) == [if s[0] == c then d else s[0]] + t;
    }
  }

  /** What `open(path, 'r').read()` returns for the stored text `s`: Python's universal-newline
      mode turns every `\r\n` and every lone `\r` into `\n`. */
  function TextRead(s: string): (r: string)
    ensures forall k :: 0 <= k < |r| ==> r[k] != '\r'
    ensures |r| <= |s|
    ensures r == s <==> '\r' !in s
  {
    if s == [] then []
    else if s[0] == '\r' then
      (if |s| >= 2 && s[1] == '\n' then "\n" + TextRead(s[2..]) else "\n" + TextRead(s[1..]))
    else [s[0]] + TextRead(s[1..])
  }

  /** Replacing a lone `\r` by `\n` acts on the first character alone, then on the rest. */
  lemma CrCons(c: char, x: string)
    ensures Replace([c] + x, "\r", "\n") == (if c == '\r' then "\n" else [c]) + Replace(x, "\r", "\n")
  {
    var s := [c] + x;
    assert s[1..] == x;
    assert OccursAt(s, "\r", 0) <==> c == '\r' by {
      assert s[0..1] == [c];
    }
  }

  /** Universal-newline reading is `s.replace('\r\n', '\n').replace('\r', '\n')`: every `\r\n` and
      then every remaining lone `\r` becomes `\n`. */
  lemma {:induction false} TextReadIsTranslation(s: string)
    decreases |s|
    ensures TextRead(s) == Replace(Replace(s, "\r\n", "\n"), "\r", "\n")
  {
    if s != [] {
      var crlf := |s| >= 2 && s[0] == '\r' && s[1] == '\n';
      assert OccursAt(s, "\r\n", 0) <==> crlf by {
        if |s| >= 2 {
          assert s[0..2] == [s[0], s[1]];
        }
      }
      if crlf {
        TextReadIsTranslation(s[2..]);
        assert Replace(s, "\r\n", "\n") == "\n" + Replace(s[2..], "\r\n", "\n");
        CrCons('\n', Replace(s[2..], "\r\n", "\n"));
      } else {
        TextReadIsTranslation(s[1..]);
        assert Replace(s, "\r\n", "\n") == [s[0]] + Replace(s[1..], "\r\n", "\n");
        CrCons(s[0], Replace(s[1..], "\r\n", "\n"));
      }
    }
  }

  /** `s.replace('\r\n', '\n')` */
  function NormalizeCrlf(s: string): (r: string)
    ensures |r| <= |s|
    ensures !Contains(s, "\r\n") ==> r == s
  {
    assert !Contains(s, "\r\n") ==> Replace(s, "\r\n", "\n") == s by {
      if !Contains(s, "\r\n") {
        ReplaceMiss(s, "\r\n", "\n");
      }
    }
    Replace(s, "\r\n", "\n")
  }

  /** Text that went through universal-newline reading has no `\r\n` left for `NormalizeCrlf` to remove. */
  lemma NormalizeAfterRead(s: string)
    ensures NormalizeCrlf(TextRead(s)) == TextRead(s)
  {
    var r := TextRead(s);
    forall j: nat | j + 2 <= |r| ensures !OccursAt(r, "\r\n", j) {
      assert r[j..j + 2][0] == r[j];
    }
    ContainsIff(r, "\r\n");
    ReplaceMiss(r, "\r\n", "\n");
  }
}
