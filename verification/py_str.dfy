/**
  The few Python string operations the three programs rely on, written out
  over `string` (ASCII text): `s.split(c)` with a one-character separator,
  `s.split(c, 1)[1]`, `s.split(pat)[-1]` and MicroPython's `s.strip()`.
 */
module PyStr {
  import opened Wrappers

  /** `s.split(sep)`: the pieces between the occurrences of `sep`, left to right. */
  function Split(s: string, sep: char): (pieces: seq<string>)
    ensures |pieces| >= 1
    ensures forall i :: 0 <= i < |pieces| ==> sep !in pieces[i]
    decreases |s|
  {
    if s == [] then [""]
    else
      var rest := Split(s[1..], sep);
      if s[0] == sep then [""] + rest
      else [[s[0]] + rest[0]] + rest[1..]
  }

  /** `sep.join(pieces)`, the inverse of `Split`. */
  function Join(pieces: seq<string>, sep: char): string
  {
    if |pieces| == 0 then ""
    else if |pieces| == 1 then pieces[0]
    else pieces[0] + [sep] + Join(pieces[1..], sep)
  }

  /** Joining a first piece onto at least one more puts the separator between them. */
  lemma JoinCons(first: string, more: seq<string>, sep: char)
    requires |more| >= 1
    ensures Join([first] + more, sep) == first + [sep] + Join(more, sep)
  {
    assert ([first] + more)[1..] == more;
  }

  /** Splitting and joining again gives back the text. */
  lemma {:induction false} JoinSplit(s: string, sep: char)
    ensures Join(Split(s, sep), sep) == s
    decreases |s|
  {
    if s != [] {
      JoinSplit(s[1..], sep);
      var rest := Split(s[1..], sep);
      if s[0] == sep {
        assert Split(s, sep) == [""] + rest;
      } else if |rest| == 1 {
        assert Split(s, sep) == [[s[0]] + rest[0]];
      } else {
        assert Split(s, sep) == [[s[0]] + rest[0]] + rest[1..];
        assert ([[s[0]] + rest[0]] + rest[1..])[1..] == rest[1..];
        assert Join(rest, sep) == rest[0] + [sep] + Join(rest[1..], sep);
      }
    }
  }

  /** Joining pieces free of the separator and splitting again gives back the pieces. */
  lemma {:induction false} SplitJoin(pieces: seq<string>, sep: char)
    requires |pieces| >= 1
    requires forall i :: 0 <= i < |pieces| ==> sep !in pieces[i]
    ensures Split(Join(pieces, sep), sep) == pieces
    decreases |pieces|, |pieces[0]|
  {
    var p := pieces[0];
    var s := Join(pieces, sep);
    if p == [] {
      if |pieces| > 1 {
        SplitJoin(pieces[1..], sep);
        assert s == [sep] + Join(pieces[1..], sep);
        assert s[1..] == Join(pieces[1..], sep);
        assert Split(s, sep) == [""] + pieces[1..];
        assert pieces == [""] + pieces[1..];
      }
    } else {
      var tail := [p[1..]] + pieces[1..];
      assert sep !in p[1..] by { assert forall c :: c in p[1..] ==> c in p; }
      SplitJoin(tail, sep);
      JoinFirstChar(pieces, sep);
      assert Split(s, sep) == [[p[0]] + p[1..]] + pieces[1..];
      assert [p[0]] + p[1..] == p;
    }
  }

  /** Joining pieces whose first one starts with `c` gives `c` before the join of the rest. */
  lemma JoinFirstChar(pieces: seq<string>, sep: char)
    requires |pieces| >= 1 && pieces[0] != []
    ensures var s := Join(pieces, sep);
      s != [] && s[0] == pieces[0][0] && s[1..] == Join([pieces[0][1..]] + pieces[1..], sep)
  {
    var p := pieces[0];
    var tail := [p[1..]] + pieces[1..];
    var s := Join(pieces, sep);
    if |pieces| > 1 {
      assert tail[1..] == pieces[1..];
      assert s == p + [sep] + Join(pieces[1..], sep);
      assert Join(tail, sep) == p[1..] + [sep] + Join(pieces[1..], sep);
    }
  }

  /** A text is split into more than one piece exactly when it holds the separator. */
  lemma SplitMany(s: string, sep: char)
    ensures |Split(s, sep)| >= 2 <==> sep in s
  {
    JoinSplit(s, sep);
    var parts := Split(s, sep);
    if |parts| >= 2 {
      assert s == parts[0] + [sep] + Join(parts[1..], sep);
      assert s[|parts[0]|] == sep;
    }
  }

  /**
    The first two pieces of `s.split(sep)` are the text before the first `sep`
    and the text after it up to the next `sep` or the end.
   */
  lemma SplitSecond(s: string, sep: char)
    requires sep in s
    ensures var p := Split(s, sep);
      && |p| >= 2
      && p[0] + [sep] + p[1] <= s
      && (|s| == |p[0]| + 1 + |p[1]| || s[|p[0]| + 1 + |p[1]|] == sep)
  {
    SplitMany(s, sep);
    var p := Split(s, sep);
    JoinSplit(s, sep);
    var front := p[0] + [sep] + p[1];
    if |p| == 2 {
      assert p[1..] == [p[1]];
      assert s == front;
    } else {
      assert p[1..][1..] == p[2..];
      assert Join(p[1..], sep) == p[1] + [sep] + Join(p[2..], sep);
      assert s == front + ([sep] + Join(p[2..], sep));
    }
  }

  /** The second piece of `s.split(sep)` is what follows the first `sep`, up to the next `sep` or the end. */
  lemma SplitSecondAfter(s: string, sep: char)
    requires sep in s
    ensures var p := Split(s, sep); var after := AfterFirst(s, sep);
      && |p| >= 2 && after.Some? && p[1] <= after.value
      && (|after.value| == |p[1]| || after.value[|p[1]|] == sep)
  {
    SplitSecond(s, sep);
    var p := Split(s, sep);
    assert s[..|p[0]|] == p[0];
    assert s[|p[0]|] == sep;
    AfterFirstAt(s, sep, |p[0]|);
  }

  /** `pat` occurs in `s` at position `j`. */
  predicate OccursAt(s: string, pat: string, j: int)
  {
    0 <= j && j + |pat| <= |s| && forall m :: 0 <= m < |pat| ==> s[j + m] == pat[m]
  }

  /** `s.find(pat, start)` when it is not -1: the leftmost position from `start` on where `pat` occurs. */
  function FindFrom(s: string, pat: string, start: nat): (r: Option<nat>)
    requires pat != []
    ensures r.Some? ==> start <= r.value && OccursAt(s, pat, r.value)
    ensures r.Some? ==> forall j :: start <= j < r.value ==> !OccursAt(s, pat, j)
    ensures r.None? ==> forall j :: start <= j ==> !OccursAt(s, pat, j)
    decreases |s| - start
  {
    if start + |pat| > |s| then None
    else if OccursAt(s, pat, start) then Some(start)
    else FindFrom(s, pat, start + 1)
  }

  /**
    Where the last piece of `s.split(pat)` begins when the splitting resumes at
    `start`: Python takes the leftmost occurrence, skips it, and goes on.
   */
  function LastPieceStart(s: string, pat: string, start: nat): (k: nat)
    requires pat != [] && start <= |s|
    ensures start <= k <= |s|
    ensures forall j :: k <= j ==> !OccursAt(s, pat, j)
    ensures k == start <==> FindFrom(s, pat, start).None?
    ensures k != start ==> start + |pat| <= k && OccursAt(s, pat, k - |pat|)
    decreases |s| - start
  {
    match FindFrom(s, pat, start)
    case None => start
    case Some(i) => LastPieceStart(s, pat, i + |pat|)
  }

  /**
    `s.split(pat)[-1]`: the text after the last occurrence of `pat`, or all of
    `s` when `pat` does not occur.
   */
  function AfterLast(s: string, pat: string): (r: string)
    requires pat != []
    ensures |r| <= |s| && r == s[|s| - |r|..]
    ensures r == s <==> FindFrom(s, pat, 0).None?
    ensures forall j :: |s| - |r| <= j ==> !OccursAt(s, pat, j)
    ensures r != s ==> OccursAt(s, pat, |s| - |r| - |pat|)
  {
    s[LastPieceStart(s, pat, 0)..]
  }

  /** `s.split(sep, 1)[1]`: the text after the first `sep`; `None` where Python raises IndexError. */
  function AfterFirst(s: string, sep: char): (r: Option<string>)
    ensures r.None? <==> sep !in s
    ensures r.Some? ==> exists i :: 0 <= i < |s| && s[i] == sep && sep !in s[..i] && r.value == s[i + 1..]
    decreases |s|
  {
    if s == [] then None
    else if s[0] == sep then
      assert s[..0] == [];
      Some(s[1..])
    else
      match AfterFirst(s[1..], sep)
      case None => None
      case Some(t) =>
        ghost var i :| 0 <= i < |s[1..]| && s[1..][i] == sep && sep !in s[1..][..i] && t == s[1..][i + 1..];
        assert s[..i + 1] == [s[0]] + s[1..][..i];
        assert s[i + 2..] == t;
        Some(t)
  }

  /** The text after the first `sep` is determined by where that first `sep` stands. */
  lemma AfterFirstAt(s: string, sep: char, i: nat)
    requires i < |s| && s[i] == sep && sep !in s[..i]
    ensures AfterFirst(s, sep) == Some(s[i + 1..])
  {
    var j :| 0 <= j < |s| && s[j] == sep && sep !in s[..j] && AfterFirst(s, sep).value == s[j + 1..];
    forall k | 0 <= k < i ensures s[k] != sep { assert s[..i][k] == s[k]; }
    forall k | 0 <= k < j ensures s[k] != sep { assert s[..j][k] == s[k]; }
  }

  /** What MicroPython's `str.strip()` removes: space, tab, newline, return, vertical tab, form feed. */
  predicate IsSpace(c: char)
  {
    c == ' ' || c == '\t' || c == '\n' || c == '\r' || c == 11 as char || c == 12 as char
  }

  /** `s.lstrip()` */
  function StripLeft(s: string): (r: string)
    ensures |r| <= |s| && r == s[|s| - |r|..]
    ensures forall i :: 0 <= i < |s| - |r| ==> IsSpace(s[i])
    ensures r != [] ==> !IsSpace(r[0])
    decreases |s|
  {
    if s != [] && IsSpace(s[0]) then StripLeft(s[1..]) else s
  }

  /** `s.rstrip()` */
  function StripRight(s: string): (r: string)
    ensures |r| <= |s| && r == s[..|r|]
    ensures forall i :: |r| <= i < |s| ==> IsSpace(s[i])
    ensures r != [] ==> !IsSpace(r[|r| - 1])
    decreases |s|
  {
    if s != [] && IsSpace(s[|s| - 1]) then StripRight(s[..|s| - 1]) else s
  }

  /** `s.strip()`: the text without its leading and trailing whitespace. */
  function Strip(s: string): (r: string)
  {
    StripRight(StripLeft(s))
  }

  /** `Strip` keeps a middle slice `s[i..j]` of `s`, drops only whitespace, and leaves none at either end. */
  lemma StripSlice(s: string) returns (i: nat, j: nat)
    ensures i <= j <= |s| && Strip(s) == s[i..j]
    ensures forall k :: 0 <= k < i ==> IsSpace(s[k])
    ensures forall k :: j <= k < |s| ==> IsSpace(s[k])
    ensures Strip(s) != [] ==> !IsSpace(Strip(s)[0]) && !IsSpace(Strip(s)[|Strip(s)| - 1])
  {
    var l := StripLeft(s);
    i := |s| - |l|;
    j := RightSlice(s, i, l);
    var r := StripRight(l);
    assert Strip(s) == r;
    if r != [] {
      assert r[0] == l[0] && !IsSpace(r[|r| - 1]);
    }
  }

  /** `rstrip` of the suffix `s[i..]` is a slice `s[i..j]` followed only by whitespace. */
  lemma RightSlice(s: string, i: nat, l: string) returns (j: nat)
    requires i <= |s| && l == s[i..]
    ensures i <= j <= |s| && StripRight(l) == s[i..j]
    ensures forall k :: j <= k < |s| ==> IsSpace(s[k])
  {
    var r := StripRight(l);
    j := i + |r|;
    assert l[..|r|] == s[i..j];
    forall k | j <= k < |s| ensures IsSpace(s[k]) {
      assert s[k] == l[k - i];
    }
  }

  /** Text that neither starts nor ends with whitespace is left as it is, and stripping twice strips once. */
  lemma StripFixed(s: string)
    requires s != [] ==> !IsSpace(s[0]) && !IsSpace(s[|s| - 1])
    ensures Strip(s) == s
  {
  }

  lemma StripIdempotent(s: string)
    ensures Strip(Strip(s)) == Strip(s)
  {
    var _, _ := StripSlice(s);
    StripFixed(Strip(s));
  }

  /** Leading whitespace is dropped up to the first other character. */
  lemma {:induction false} StripLeftSpaces(w: string, t: string)
    requires forall k :: 0 <= k < |w| ==> IsSpace(w[k])
    requires t != [] ==> !IsSpace(t[0])
    ensures StripLeft(w + t) == t
    decreases |w|
  {
    if w == [] {
      assert w + t == t;
    } else {
      assert (w + t)[1..] == w[1..] + t;
      StripLeftSpaces(w[1..], t);
    }
  }

  /** Trailing whitespace is dropped back to the last other character. */
  lemma {:induction false} StripRightSpaces(t: string, w: string)
    requires forall k :: 0 <= k < |w| ==> IsSpace(w[k])
    requires t != [] ==> !IsSpace(t[|t| - 1])
    ensures StripRight(t + w) == t
    decreases |w|
  {
    if w == [] {
      assert t + w == t;
    } else {
      var n := |w| - 1;
      assert (t + w)[..|t + w| - 1] == t + w[..n];
      StripRightSpaces(t, w[..n]);
    }
  }

  /** Stripping text padded on both sides with whitespace gives back exactly the text. */
  lemma StripPadded(w1: string, s: string, w2: string)
    requires forall k :: 0 <= k < |w1| ==> IsSpace(w1[k])
    requires forall k :: 0 <= k < |w2| ==> IsSpace(w2[k])
    requires s != [] ==> !IsSpace(s[0]) && !IsSpace(s[|s| - 1])
    ensures Strip(w1 + s + w2) == s
  {
    if s == [] {
      assert w1 + s + w2 == (w1 + w2) + [];
      StripLeftSpaces(w1 + w2, []);
    } else {
      assert w1 + s + w2 == w1 + (s + w2);
      StripLeftSpaces(w1, s + w2);
      StripRightSpaces(s, w2);
    }
  }

  /** `pat` cannot overlap itself: no proper suffix of it is also a prefix. `"cmd="` is such a pattern. */
  predicate NoSelfOverlap(pat: string)
  {
    forall d :: 0 < d < |pat| ==> pat[d..] != pat[..|pat| - d]
  }

  /** Two occurrences closer than the pattern's length make a suffix of it equal to a prefix. */
  lemma OverlapAgrees(s: string, pat: string, p: int, q: int)
    requires OccursAt(s, pat, p) && OccursAt(s, pat, q) && p < q < p + |pat|
    ensures pat[q - p..] == pat[..|pat| - (q - p)]
  {
    var d := q - p;
    forall k | 0 <= k < |pat| - d ensures pat[d..][k] == pat[..|pat| - d][k] {
      assert s[q + k] == pat[k] && s[p + (d + k)] == pat[d + k];
    }
  }

  /** Two occurrences of a pattern that cannot overlap itself are at least its length apart. */
  lemma OccurrencesApart(s: string, pat: string, p: int, q: int)
    requires NoSelfOverlap(pat) && OccursAt(s, pat, p) && OccursAt(s, pat, q) && p < q
    ensures q - p >= |pat|
  {
    if q - p < |pat| {
      OverlapAgrees(s, pat, p, q);
    }
  }

  /**
    If `pat` occurs at `q` and nowhere after it, `s.split(pat)[-1]` is the text
    after that occurrence, for a pattern that cannot overlap itself.
   */
  lemma AfterLastAt(s: string, pat: string, q: nat)
    requires pat != [] && NoSelfOverlap(pat) && OccursAt(s, pat, q)
    requires forall j :: q + |pat| <= j ==> !OccursAt(s, pat, j)
    ensures LastPieceStart(s, pat, 0) == q + |pat|
  {
    var k := LastPieceStart(s, pat, 0);
    assert k != 0;
    var p := k - |pat|;
    if p < q {
      OccurrencesApart(s, pat, p, q);
    } else if q < p {
      OccurrencesApart(s, pat, q, p);
    }
  }

  /** An occurrence in `s` at or after `k` would be one in `x == s[k..]`. */
  lemma NoOccurrenceInSuffix(s: string, pat: string, x: string, k: nat, j: int)
    requires k <= |s| && x == s[k..] && k <= j
    requires forall i :: 0 <= i ==> !OccursAt(x, pat, i)
    ensures !OccursAt(s, pat, j)
  {
    if OccursAt(s, pat, j) {
      var i := j - k;
      forall m | 0 <= m < |pat| ensures x[i + m] == pat[m] {
        assert s[j + m] == x[i + m];
      }
      assert OccursAt(x, pat, i);
    }
  }

  /** When `x` holds no `pat`, `(w + pat + x).split(pat)[-1]` is `x`, for a pattern that cannot overlap itself. */
  lemma AfterLastOfSuffix(w: string, pat: string, x: string)
    requires pat != [] && NoSelfOverlap(pat)
    requires FindFrom(x, pat, 0).None?
    ensures AfterLast(w + pat + x, pat) == x
  {
    var s := w + pat + x;
    var q := |w|;
    assert s[q + |pat|..] == x;
    assert OccursAt(s, pat, q) by {
      forall m | 0 <= m < |pat| ensures s[q + m] == pat[m] { }
    }
    forall j | q + |pat| <= j ensures !OccursAt(s, pat, j) {
      NoOccurrenceInSuffix(s, pat, x, q + |pat|, j);
    }
    AfterLastAt(s, pat, q);
    assert s[q + |pat|..] == x;
  }
}
