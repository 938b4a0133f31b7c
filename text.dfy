/**
 * The Swift string operations the probes rely on, on strings as sequences of
 * characters: substring search (`contains`), `split(separator:)` with its
 * default of omitting empty subsequences, and
 * `trimmingCharacters(in: .whitespacesAndNewlines)`.
 */
module Text {
  import opened Options

  /** `pat` occurs in `s` starting at index `i`. */
  predicate OccursAt(s: string, pat: string, i: nat)
  {
    i + |pat| <= |s| && s[i..i + |pat|] == pat
  }

  /** The leftmost occurrence of `pat` in `s` at or after index `from`. */
  function IndexFrom(s: string, pat: string, from: nat): (r: Option<nat>)
    decreases |s| - from
    ensures r.Some? ==> from <= r.value && OccursAt(s, pat, r.value)
    ensures forall j: nat :: from <= j && (r.None? || j < r.value) ==> !OccursAt(s, pat, j)
  {
    if from + |pat| > |s| then None
    else if s[from..from + |pat|] == pat then Some(from)
    else IndexFrom(s, pat, from + 1)
  }

  /** `String.contains(_:)`: a case-sensitive substring test. */
  function Contains(s: string, pat: string): (r: bool)
    ensures r ==> |pat| <= |s|
    ensures |pat| <= |s| && s[..|pat|] == pat ==> r
  {
    IndexFrom(s, pat, 0).Some?
  }

  /** `Contains` holds exactly when the pattern occurs somewhere. */
  lemma ContainsIff(s: string, pat: string)
    ensures Contains(s, pat) <==> exists i: nat :: OccursAt(s, pat, i)
  {
    var r := IndexFrom(s, pat, 0);
    if r.Some? {
      assert OccursAt(s, pat, r.value);
    }
  }

  /** A witnessed occurrence makes `Contains` true. */
  lemma ContainsAt(s: string, pat: string, i: nat)
    requires OccursAt(s, pat, i)
    ensures Contains(s, pat)
  {
    ContainsIff(s, pat);
  }

  /** An occurrence inside a suffix of `s` is an occurrence in `s`, shifted. */
  lemma OccursInSuffix(s: string, pat: string, off: nat, j: nat)
    requires off <= |s|
    ensures OccursAt(s[off..], pat, j) <==> OccursAt(s, pat, off + j)
  {
    if j + |pat| <= |s| - off {
      assert s[off..][j..j + |pat|] == s[off + j..off + j + |pat|];
    }
  }

  /** An occurrence inside a prefix of `s` is an occurrence in `s`. */
  lemma OccursInPrefix(s: string, pat: string, n: nat, j: nat)
    requires n <= |s|
    ensures OccursAt(s[..n], pat, j) <==> j + |pat| <= n && OccursAt(s, pat, j)
  {
    if j + |pat| <= n {
      assert s[..n][j..j + |pat|] == s[j..j + |pat|];
    }
  }

  /** Occurrence is transitive: a substring of a substring of `s` is a substring of `s`. */
  lemma {:induction false} ContainsTrans(s: string, t: string, u: string)
    requires Contains(s, t) && Contains(t, u)
    ensures Contains(s, u)
  {
    ContainsIff(s, t);
    ContainsIff(t, u);
    var i: nat :| OccursAt(s, t, i);
    var j: nat :| OccursAt(t, u, j);
    forall k | 0 <= k < |u| ensures s[i + j + k] == u[k] {
      assert u[k] == t[j..j + |u|][k] == t[j + k];
      assert t[j + k] == s[i..i + |t|][j + k] == s[i + j + k];
    }
    assert s[i + j..i + j + |u|] == u;
    ContainsAt(s, u, i + j);
  }

  /**
   * Every piece between the leftmost non-overlapping occurrences of `sep`,
   * empty pieces included: the pieces `split(separator:)` chooses from.
   */
  function Pieces(s: string, sep: string): (r: seq<string>)
    requires |sep| > 0
    decreases |s|
    ensures |r| >= 1
  {
    match IndexFrom(s, sep, 0)
    case None => [s]
    case Some(i) => [s[..i]] + Pieces(s[i + |sep|..], sep)
  }

  /** No piece contains the separator, and every piece is a substring of the text. */
  lemma {:induction false} PiecesProperties(s: string, sep: string)
    requires |sep| > 0
    ensures forall k :: 0 <= k < |Pieces(s, sep)| ==> !Contains(Pieces(s, sep)[k], sep) && Contains(s, Pieces(s, sep)[k])
    decreases |s|
  {
    match IndexFrom(s, sep, 0)
    case None =>
      ContainsAt(s, s, 0);
    case Some(i) =>
      var rest := s[i + |sep|..];
      var tail := Pieces(rest, sep);
      PiecesProperties(rest, sep);
      PieceBeforeFirst(s, sep, i);
      SuffixPieces(s, sep, i + |sep|, tail);
      var p := Pieces(s, sep);
      assert p == [s[..i]] + tail;
      forall k | 0 <= k < |p| ensures !Contains(p[k], sep) && Contains(s, p[k]) {
        if k > 0 {
          assert p[k] == tail[k - 1];
        }
      }
  }

  /** The text before the first separator holds no separator and is part of `s`. */
  lemma PieceBeforeFirst(s: string, sep: string, i: nat)
    requires |sep| > 0 && i <= |s|
    requires forall j: nat :: j < i ==> !OccursAt(s, sep, j)
    ensures !Contains(s[..i], sep) && Contains(s, s[..i])
  {
    ContainsAt(s, s[..i], 0);
    forall j: nat ensures !OccursAt(s[..i], sep, j) {
      OccursInPrefix(s, sep, i, j);
    }
    ContainsIff(s[..i], sep);
  }

  /** Substrings of a suffix of `s` are substrings of `s`. */
  lemma SuffixPieces(s: string, sep: string, off: nat, rest: seq<string>)
    requires off <= |s|
    requires forall k :: 0 <= k < |rest| ==> Contains(s[off..], rest[k])
    ensures forall k :: 0 <= k < |rest| ==> Contains(s, rest[k])
  {
    ContainsAt(s, s[off..], off);
    forall k | 0 <= k < |rest| ensures Contains(s, rest[k]) {
      ContainsTrans(s, s[off..], rest[k]);
    }
  }

  /** The pieces glued back together with the separator. */
  function Join(pieces: seq<string>, sep: string): string
    requires |pieces| >= 1
  {
    if |pieces| == 1 then pieces[0] else pieces[0] + sep + Join(pieces[1..], sep)
  }

  /** Splitting loses nothing: joining the pieces gives back the input. */
  lemma {:induction false} JoinPieces(s: string, sep: string)
    requires |sep| > 0
    ensures Join(Pieces(s, sep), sep) == s
    decreases |s|
  {
    match IndexFrom(s, sep, 0)
    case None =>
    case Some(i) =>
      var rest := s[i + |sep|..];
      JoinPieces(rest, sep);
      PiecesStep(s, sep, i);
      JoinCons(s[..i], Pieces(rest, sep), sep);
      AroundOccurrence(s, sep, i);
  }

  /** Joining a piece in front of at least one more puts the separator after it. */
  lemma JoinCons(head: string, tail: seq<string>, sep: string)
    requires |tail| >= 1
    ensures Join([head] + tail, sep) == head + sep + Join(tail, sep)
  {
    assert ([head] + tail)[1..] == tail;
  }

  /** An occurrence of `sep` at `i` splits `s` into what is before it, `sep` and what is after it. */
  lemma AroundOccurrence(s: string, sep: string, i: nat)
    requires OccursAt(s, sep, i)
    ensures s == s[..i] + sep + s[i + |sep|..]
  {
    assert s == s[..i] + s[i..i + |sep|] + s[i + |sep|..];
  }

  /** The pieces with the empty ones left out, order kept. */
  function NonEmpty(pieces: seq<string>): (r: seq<string>)
    ensures |r| <= |pieces|
    ensures forall k :: 0 <= k < |r| ==> r[k] != [] && r[k] in pieces
    ensures r == [] <==> forall k :: 0 <= k < |pieces| ==> pieces[k] == []
  {
    if pieces == [] then []
    else
      var rest := NonEmpty(pieces[1..]);
      assert forall k :: 1 <= k < |pieces| ==> pieces[k] == pieces[1..][k - 1];
      (if pieces[0] == [] then [] else [pieces[0]]) + rest
  }

  /** The indices, from `from` on, of the pieces that are not empty, in increasing order. */
  function NonEmptyPositions(pieces: seq<string>, from: nat): (pos: seq<nat>)
    requires from <= |pieces|
    decreases |pieces| - from
    ensures forall k :: 0 <= k < |pos| ==> from <= pos[k] < |pieces| && pieces[pos[k]] != []
    ensures forall k, l :: 0 <= k < l < |pos| ==> pos[k] < pos[l]
    ensures forall j :: from <= j < |pieces| && pieces[j] != [] ==> j in pos
  {
    if from == |pieces| then []
    else
      var rest := NonEmptyPositions(pieces, from + 1);
      (if pieces[from] == [] then [] else [from]) + rest
  }

  /** `r` lists the pieces at the positions `pos`, one for one. */
  predicate PickedAt(r: seq<string>, pieces: seq<string>, pos: seq<nat>)
  {
    |r| == |pos| && forall k :: 0 <= k < |r| ==> pos[k] < |pieces| && r[k] == pieces[pos[k]]
  }

  /**
   * `NonEmpty` keeps exactly the non-empty pieces, in their order: its k-th
   * element is the piece at the k-th non-empty position.
   */
  lemma {:induction false} NonEmptyAtPositions(pieces: seq<string>, from: nat)
    requires from <= |pieces|
    decreases |pieces| - from
    ensures PickedAt(NonEmpty(pieces[from..]), pieces, NonEmptyPositions(pieces, from))
  {
    if from < |pieces| {
      NonEmptyAtPositions(pieces, from + 1);
      NonEmptyFrom(pieces, from);
      if pieces[from] != [] {
        PickedCons(NonEmpty(pieces[from + 1..]), pieces, NonEmptyPositions(pieces, from + 1), from);
      }
    }
  }

  /** Picking one more piece in front. */
  lemma PickedCons(r: seq<string>, pieces: seq<string>, pos: seq<nat>, i: nat)
    requires PickedAt(r, pieces, pos) && i < |pieces|
    ensures PickedAt([pieces[i]] + r, pieces, [i] + pos)
  {
    var r', pos' := [pieces[i]] + r, [i] + pos;
    forall k | 1 <= k < |r'| ensures pos'[k] < |pieces| && r'[k] == pieces[pos'[k]] {
      assert r'[k] == r[k - 1] && pos'[k] == pos[k - 1];
    }
  }

  /** One step of `NonEmpty` on the pieces from `from` on: the piece at `from`, when not empty, in front of the rest. */
  lemma NonEmptyFrom(pieces: seq<string>, from: nat)
    requires from < |pieces|
    ensures NonEmpty(pieces[from..]) == (if pieces[from] == [] then [] else [pieces[from]]) + NonEmpty(pieces[from + 1..])
  {
    assert pieces[from..][1..] == pieces[from + 1..];
  }

  /** `split(separator:)` with `omittingEmptySubsequences` left at its default of true. */
  function Split(s: string, sep: string): (r: seq<string>)
    requires |sep| > 0
    ensures forall k :: 0 <= k < |r| ==> r[k] != [] && !Contains(r[k], sep) && Contains(s, r[k])
  {
    PiecesProperties(s, sep);
    NonEmpty(Pieces(s, sep))
  }

  /** The split is the non-empty pieces, each in its place and in order, and no other. */
  lemma SplitAtPositions(s: string, sep: string)
    requires |sep| > 0
    ensures PickedAt(Split(s, sep), Pieces(s, sep), NonEmptyPositions(Pieces(s, sep), 0))
  {
    var p := Pieces(s, sep);
    NonEmptyAtPositions(p, 0);
    assert p[0..] == p;
  }

  /** Nothing is left of a split exactly when the text is made of separators alone. */
  lemma SplitEmptyIff(s: string, sep: string)
    requires |sep| > 0
    ensures Split(s, sep) == [] <==> exists n: nat :: s == Repeat(sep, n)
  {
    var p := Pieces(s, sep);
    if NonEmpty(p) == [] {
      JoinPieces(s, sep);
      JoinOfEmpties(p, sep);
      assert s == Repeat(sep, |p| - 1);
    } else if n: nat :| s == Repeat(sep, n) {
      PiecesOfRepeat(sep, n);
      assert false;
    }
  }

  /** `n` copies of `sep` back to back. */
  function Repeat(sep: string, n: nat): string
  {
    if n == 0 then [] else sep + Repeat(sep, n - 1)
  }

  lemma {:induction false} JoinOfEmpties(pieces: seq<string>, sep: string)
    requires |pieces| >= 1
    requires forall k :: 0 <= k < |pieces| ==> pieces[k] == []
    ensures Join(pieces, sep) == Repeat(sep, |pieces| - 1)
  {
    if |pieces| > 1 {
      JoinOfEmpties(pieces[1..], sep);
    }
  }

  /** A text made only of separators splits into empty pieces alone. */
  lemma {:induction false} PiecesOfRepeat(sep: string, n: nat)
    requires |sep| > 0
    ensures forall k :: 0 <= k < |Pieces(Repeat(sep, n), sep)| ==> Pieces(Repeat(sep, n), sep)[k] == []
  {
    var s := Repeat(sep, n);
    if n > 0 {
      assert s[0..|sep|] == sep;
      assert OccursAt(s, sep, 0);
      assert IndexFrom(s, sep, 0) == Some(0);
      assert s[|sep|..] == Repeat(sep, n - 1);
      PiecesOfRepeat(sep, n - 1);
    }
  }

  /** Removing a leading empty piece does not change the split. */
  lemma SplitLeadingSeparator(s: string, sep: string)
    requires |sep| > 0 && OccursAt(s, sep, 0)
    ensures Split(s, sep) == Split(s[|sep|..], sep)
  {
    assert IndexFrom(s, sep, 0) == Some(0);
    var p := Pieces(s, sep);
    assert p == [[]] + Pieces(s[|sep|..], sep);
    assert p[1..] == Pieces(s[|sep|..], sep);
  }

  /**
   * Removing a trailing separator does not change the split, for a separator
   * that cannot overlap itself. (For one that can, it may: "xaaa" split on
   * "aa" gives "x" and "a", while "xa" gives "xa".)
   */
  lemma SplitTrailingSeparator(s: string, sep: string)
    requires |sep| > 0 && SelfOverlapFree(sep) && |sep| <= |s| && OccursAt(s, sep, |s| - |sep|)
    ensures Split(s, sep) == Split(s[..|s| - |sep|], sep)
  {
    PiecesTrailing(s, sep);
    NonEmptyDropsEmpty(Pieces(s[..|s| - |sep|], sep));
  }

  /** A trailing separator adds one empty piece at the end, and nothing else. */
  lemma {:induction false} PiecesTrailing(s: string, sep: string)
    requires |sep| > 0 && SelfOverlapFree(sep) && |sep| <= |s| && OccursAt(s, sep, |s| - |sep|)
    ensures Pieces(s, sep) == Pieces(s[..|s| - |sep|], sep) + [[]]
    decreases |s|
  {
    var e := |s| - |sep|;
    match IndexFrom(s, sep, 0)
    case None =>
      assert false;
    case Some(i) =>
      if i == e {
        TrailingIsFirst(s, sep);
      } else {
        if e < i + |sep| {
          OverlapBorder(s, sep, i, e);
          assert false;
        }
        var rest := s[i + |sep|..];
        OccursInSuffix(s, sep, i + |sep|, e - i - |sep|);
        PiecesTrailing(rest, sep);
        PrefixAfterFirst(s, sep, i);
        SameFirstPiece(s, s[..e], sep, i, rest[..|rest| - |sep|]);
      }
  }

  /** When the trailing separator is the only one, the pieces are the text before it and an empty one. */
  lemma TrailingIsFirst(s: string, sep: string)
    requires |sep| > 0 && |sep| <= |s| && IndexFrom(s, sep, 0) == Some(|s| - |sep|)
    ensures Pieces(s, sep) == Pieces(s[..|s| - |sep|], sep) + [[]]
  {
    var e := |s| - |sep|;
    NoEarlierInPrefix(s, sep, e);
    PiecesStep(s, sep, e);
    assert s[e + |sep|..] == [];
    assert Pieces([], sep) == [[]];
  }

  /** Past a first separator that ends before the trailing one, the prefix without the trailing one has the same first separator and the same text around it. */
  lemma PrefixAfterFirst(s: string, sep: string, i: nat)
    requires |sep| > 0 && |sep| <= |s| && IndexFrom(s, sep, 0) == Some(i) && i + |sep| <= |s| - |sep|
    ensures var p, rest := s[..|s| - |sep|], s[i + |sep|..];
      IndexFrom(p, sep, 0) == Some(i) && s[..i] == p[..i] && rest[..|rest| - |sep|] == p[i + |sep|..]
  {
    IndexOfPrefix(s, sep, |s| - |sep|, i);
    SlicesAfterFirst(s, |sep|, i);
  }

  /**
   * Two texts with the same first separator and the same text before it: if
   * the remainder of one has an extra empty piece at the end, so does the whole.
   */
  lemma SameFirstPiece(s: string, p: string, sep: string, i: nat, q: string)
    requires |sep| > 0 && IndexFrom(s, sep, 0) == Some(i) && IndexFrom(p, sep, 0) == Some(i) && s[..i] == p[..i]
    requires q == p[i + |sep|..] && Pieces(s[i + |sep|..], sep) == Pieces(q, sep) + [[]]
    ensures Pieces(s, sep) == Pieces(p, sep) + [[]]
  {
    PiecesStep(s, sep, i);
    PiecesStep(p, sep, i);
    AppendAfterHead(Pieces(s, sep), s[..i], Pieces(s[i + |sep|..], sep), Pieces(p, sep), Pieces(p[i + |sep|..], sep));
  }

  /** Cutting `n` off the end commutes with taking what follows the first separator. */
  lemma SlicesAfterFirst(s: string, n: nat, i: nat)
    requires i + n <= |s| - n
    ensures s[i + n..][..|s[i + n..]| - n] == s[..|s| - n][i + n..]
    ensures s[..|s| - n][..i] == s[..i]
  {
  }

  /** A head in front of a tail that ends in an empty piece. */
  lemma AppendAfterHead(whole: seq<string>, head: string, tail: seq<string>, front: seq<string>, frontTail: seq<string>)
    requires whole == [head] + tail && tail == frontTail + [[]] && front == [head] + frontTail
    ensures whole == front + [[]]
  {
  }

  /** With the first occurrence at `n`, the prefix before `n` holds no occurrence. */
  lemma NoEarlierInPrefix(s: string, sep: string, n: nat)
    requires |sep| > 0 && n <= |s| && IndexFrom(s, sep, 0) == Some(n)
    ensures Pieces(s[..n], sep) == [s[..n]]
  {
    var r := IndexFrom(s[..n], sep, 0);
    if r.Some? {
      OccursInPrefix(s, sep, n, r.value);
      assert false;
    }
  }

  /** The first occurrence in `s`, when it ends inside a prefix, is the first occurrence in that prefix. */
  lemma IndexOfPrefix(s: string, sep: string, n: nat, i: nat)
    requires n <= |s| && IndexFrom(s, sep, 0) == Some(i) && i + |sep| <= n
    ensures IndexFrom(s[..n], sep, 0) == Some(i)
  {
    OccursInPrefix(s, sep, n, i);
    forall j: nat | j < i ensures !OccursAt(s[..n], sep, j) {
      OccursInPrefix(s, sep, n, j);
    }
    LeftmostIsFound(s[..n], sep, i);
  }

  /** An occurrence with none before it is the one `IndexFrom` finds. */
  lemma LeftmostIsFound(s: string, pat: string, i: nat)
    requires OccursAt(s, pat, i) && forall j: nat :: j < i ==> !OccursAt(s, pat, j)
    ensures IndexFrom(s, pat, 0) == Some(i)
  {
    var r := IndexFrom(s, pat, 0);
    assert r.Some?;
    assert r.value <= i;
  }

  /** An empty piece at the end is left out like any other. */
  lemma {:induction false} NonEmptyDropsEmpty(pieces: seq<string>)
    ensures NonEmpty(pieces + [[]]) == NonEmpty(pieces)
  {
    if pieces == [] {
      assert NonEmpty([[]]) == [] + NonEmpty([]);
    } else {
      NonEmptyDropsEmpty(pieces[1..]);
      assert (pieces + [[]])[1..] == pieces[1..] + [[]];
    }
  }

  // ---- the last piece and the last occurrence ----

  /** The rightmost occurrence of `pat` in `s` at an index below `k`. */
  function LastIndexBelow(s: string, pat: string, k: nat): (r: Option<nat>)
    ensures r.Some? ==> r.value < k && OccursAt(s, pat, r.value)
    ensures forall j: nat :: j < k && (r.None? || r.value < j) ==> !OccursAt(s, pat, j)
  {
    if k == 0 then None
    else if OccursAt(s, pat, k - 1) then Some(k - 1)
    else LastIndexBelow(s, pat, k - 1)
  }

  /** The text after the last occurrence of `sep`, or all of `s` when `sep` does not occur. */
  function AfterLast(s: string, sep: string): (r: string)
    ensures |r| <= |s| && r == s[|s| - |r|..]
  {
    match LastIndexBelow(s, sep, |s| + 1)
    case None => s
    case Some(p) => s[p + |sep|..]
  }

  /** Without any occurrence of the separator, the whole text is what follows the last one. */
  lemma AfterLastWithout(s: string, sep: string)
    requires !Contains(s, sep)
    ensures AfterLast(s, sep) == s
  {
    ContainsIff(s, sep);
  }

  lemma NoLastMeansAbsent(s: string, sep: string)
    requires LastIndexBelow(s, sep, |s| + 1).None?
    ensures !Contains(s, sep)
  {
    forall j: nat ensures !OccursAt(s, sep, j) {
      if j < |s| + 1 {
        assert !OccursAt(s, sep, j);
      }
    }
    ContainsIff(s, sep);
  }

  /** No two occurrences of `pat` can overlap. */
  predicate SelfOverlapFree(pat: string)
  {
    forall d :: 0 < d < |pat| ==> pat[d..] != pat[..|pat| - d]
  }

  /** A pattern whose first character does not recur cannot overlap itself. */
  lemma FirstCharUnique(pat: string)
    requires |pat| > 0 && pat[0] !in pat[1..]
    ensures SelfOverlapFree(pat)
  {
    forall d | 0 < d < |pat| ensures pat[d..] != pat[..|pat| - d] {
      assert pat[d] == pat[1..][d - 1];
      assert pat[d..][0] != pat[..|pat| - d][0];
    }
  }

  /** Two overlapping occurrences make the pattern overlap itself. */
  lemma OverlapBorder(s: string, pat: string, i: nat, j: nat)
    requires OccursAt(s, pat, i) && OccursAt(s, pat, j) && i < j < i + |pat|
    ensures pat[j - i..] == pat[..|pat| - (j - i)]
  {
    var d := j - i;
    forall k | 0 <= k < |pat| - d ensures pat[d..][k] == pat[..|pat| - d][k] {
      assert pat[d + k] == s[i..i + |pat|][d + k] == s[j + k];
      assert pat[k] == s[j..j + |pat|][k];
    }
  }

  /**
   * For a separator that cannot overlap itself, the last piece of the split
   * is exactly the text after the last occurrence of the separator.
   */
  lemma {:induction false} LastPieceAfterLast(s: string, sep: string)
    requires |sep| > 0 && SelfOverlapFree(sep)
    ensures Last(Pieces(s, sep)) == Some(AfterLast(s, sep))
    decreases |s|
  {
    match IndexFrom(s, sep, 0)
    case None =>
      assert Pieces(s, sep) == [s];
      NoneMeansNoLast(s, sep);
    case Some(i) =>
      LastPieceAfterLast(s[i + |sep|..], sep);
      LastPieceStep(s, sep, i);
  }

  /** The induction step: the last piece and the text after the last separator both come from the remainder. */
  lemma LastPieceStep(s: string, sep: string, i: nat)
    requires |sep| > 0 && SelfOverlapFree(sep) && IndexFrom(s, sep, 0) == Some(i)
    requires Last(Pieces(s[i + |sep|..], sep)) == Some(AfterLast(s[i + |sep|..], sep))
    ensures Last(Pieces(s, sep)) == Some(AfterLast(s, sep))
  {
    var rest := s[i + |sep|..];
    PiecesStep(s, sep, i);
    LastOfAppend([s[..i]], Pieces(rest, sep));
    AfterLastOfRest(s, sep, i);
  }

  /** With no occurrence at all, the text after the last one is the whole text. */
  lemma NoneMeansNoLast(s: string, sep: string)
    requires IndexFrom(s, sep, 0).None?
    ensures AfterLast(s, sep) == s
  {
    assert LastIndexBelow(s, sep, |s| + 1).None?;
  }

  /** Past the first separator, the pieces are the text before it and the pieces of the remainder. */
  lemma PiecesStep(s: string, sep: string, i: nat)
    requires |sep| > 0 && IndexFrom(s, sep, 0) == Some(i)
    ensures Pieces(s, sep) == [s[..i]] + Pieces(s[i + |sep|..], sep)
  {
    PiecesStepParts(s, sep, i);
    var p := Pieces(s, sep);
    assert p == [p[0]] + p[1..];
  }

  /** The same step, element by element: the head piece and the rest. */
  lemma PiecesStepParts(s: string, sep: string, i: nat)
    requires |sep| > 0 && IndexFrom(s, sep, 0) == Some(i)
    ensures |Pieces(s, sep)| == 1 + |Pieces(s[i + |sep|..], sep)|
    ensures Pieces(s, sep)[0] == s[..i]
    ensures Pieces(s, sep)[1..] == Pieces(s[i + |sep|..], sep)
  {
  }

  /** The last element of a sequence with a non-empty end is that of the end. */
  lemma LastOfAppend(front: seq<string>, back: seq<string>)
    requires back != []
    ensures Last(front + back) == Last(back)
  {
  }

  /** Past an occurrence at `i`, the text after the last occurrence is that of the remainder. */
  lemma AfterLastOfRest(s: string, sep: string, i: nat)
    requires |sep| > 0 && SelfOverlapFree(sep) && OccursAt(s, sep, i)
    ensures AfterLast(s, sep) == AfterLast(s[i + |sep|..], sep)
  {
    var rest := s[i + |sep|..];
    match LastIndexBelow(rest, sep, |rest| + 1)
    case None =>
      NoLastMeansAbsent(rest, sep);
      AfterLastWithout(rest, sep);
      LastWhenRestIsFree(s, sep, i);
    case Some(q) =>
      LastInRest(s, sep, i, q);
  }

  /** When the remainder holds no separator, the occurrence at `i` is the last one. */
  lemma LastWhenRestIsFree(s: string, sep: string, i: nat)
    requires |sep| > 0 && SelfOverlapFree(sep) && OccursAt(s, sep, i)
    requires !Contains(s[i + |sep|..], sep)
    ensures AfterLast(s, sep) == s[i + |sep|..]
  {
    var off := i + |sep|;
    ContainsIff(s[off..], sep);
    forall j: nat | i < j ensures !OccursAt(s, sep, j) {
      if j < off {
        if OccursAt(s, sep, j) {
          OverlapBorder(s, sep, i, j);
        }
      } else {
        OccursInSuffix(s, sep, off, j - off);
      }
    }
    LastIsUnique(s, sep, i);
  }

  /** The last occurrence in the remainder is the last occurrence in the whole text. */
  lemma LastInRest(s: string, sep: string, i: nat, q: nat)
    requires |sep| > 0 && OccursAt(s, sep, i)
    requires LastIndexBelow(s[i + |sep|..], sep, |s[i + |sep|..]| + 1) == Some(q)
    ensures AfterLast(s, sep) == AfterLast(s[i + |sep|..], sep)
  {
    var off := i + |sep|;
    var rest := s[off..];
    OccursInSuffix(s, sep, off, q);
    forall j: nat | off + q < j ensures !OccursAt(s, sep, j) {
      OccursInSuffix(s, sep, off, j - off);
    }
    LastIsUnique(s, sep, off + q);
    assert rest[q + |sep|..] == s[off + q + |sep|..];
  }

  /** An occurrence with none after it is the one `LastIndexBelow` finds. */
  lemma LastIsUnique(s: string, sep: string, i: nat)
    requires OccursAt(s, sep, i)
    requires forall j: nat :: i < j ==> !OccursAt(s, sep, j)
    ensures LastIndexBelow(s, sep, |s| + 1) == Some(i)
  {
  }

  // ---- the first piece of a split on one character ----

  /** A one-character pattern occurs exactly where that character stands. */
  lemma OccursChar(t: string, c: char, j: nat)
    ensures OccursAt(t, [c], j) <==> j < |t| && t[j] == c
  {
    if j < |t| {
      assert t[j..j + 1] == [t[j]];
    }
  }

  /** The longest prefix of `t` free of `c`. */
  function RunPrefix(t: string, c: char): (r: string)
    ensures |r| <= |t| && r == t[..|r|] && c !in r
    ensures |r| < |t| ==> t[|r|] == c
  {
    if t == [] || t[0] == c then [] else [t[0]] + RunPrefix(t[1..], c)
  }

  /** The first maximal run of characters other than `c`, when there is one. */
  function FirstRun(t: string, c: char): (r: Option<string>)
    ensures r.None? <==> forall k :: 0 <= k < |t| ==> t[k] == c
    ensures r.Some? ==> r.value != [] && c !in r.value
  {
    if t == [] then None
    else if t[0] == c then
      var r := FirstRun(t[1..], c);
      assert forall k :: 1 <= k < |t| ==> t[k] == t[1..][k - 1];
      r
    else Some(RunPrefix(t, c))
  }

  /**
   * Splitting on a single character and taking the first piece skips leading
   * copies of that character and stops at the next one.
   */
  lemma {:induction false} FirstOfSplitOnChar(t: string, c: char)
    ensures First(Split(t, [c])) == FirstRun(t, c)
    decreases |t|
  {
    if t == [] {
      assert IndexFrom(t, [c], 0) == None;
    } else if t[0] == c {
      assert OccursAt(t, [c], 0);
      SplitLeadingSeparator(t, [c]);
      FirstOfSplitOnChar(t[1..], c);
    } else {
      var w := RunPrefix(t, c);
      var n := |w|;
      forall j: nat | j < n ensures !OccursAt(t, [c], j) {
        OccursChar(t, c, j);
        assert t[j] == w[j];
      }
      var p := Pieces(t, [c]);
      if n < |t| {
        OccursChar(t, c, n);
        assert IndexFrom(t, [c], 0) == Some(n);
        assert p[0] == w;
      } else {
        forall j: nat ensures !OccursAt(t, [c], j) {
          OccursChar(t, c, j);
          if j < n { assert t[j] == w[j]; }
        }
        assert IndexFrom(t, [c], 0) == None;
        assert p == [t];
        assert w == t;
      }
      assert p == [w] + p[1..];
      assert NonEmpty(p) == [w] + NonEmpty(p[1..]);
    }
  }

  /** Once the last piece is non-empty, it is also the last non-empty piece. */
  lemma {:induction false} LastOfNonEmpty(pieces: seq<string>)
    requires |pieces| >= 1 && pieces[|pieces| - 1] != []
    ensures Last(NonEmpty(pieces)) == Some(pieces[|pieces| - 1])
  {
    if |pieces| > 1 {
      LastOfNonEmpty(pieces[1..]);
    }
  }

  /** Splitting a text without the separator gives the text itself, unless it is empty. */
  lemma SplitWithoutSeparator(s: string, sep: string)
    requires |sep| > 0 && !Contains(s, sep)
    ensures Split(s, sep) == if s == [] then [] else [s]
  {
    assert Pieces(s, sep) == [s];
  }

  // ---- trimming ----

  /** The Unicode general category Zs (space separators). */
  const SpaceSeparators: set<char> := {
    ' ', '\U{00A0}', '\U{1680}', '\U{2000}', '\U{2001}', '\U{2002}', '\U{2003}', '\U{2004}', '\U{2005}',
    '\U{2006}', '\U{2007}', '\U{2008}', '\U{2009}', '\U{200A}', '\U{202F}', '\U{205F}', '\U{3000}'
  }

  /** `CharacterSet.whitespacesAndNewlines`: Unicode categories Zs, Zl, Zp, tab, U+000A to U+000D and U+0085. */
  predicate IsWhitespaceOrNewline(c: char): (b: bool)
    ensures b <==> (c in SpaceSeparators || c == '\U{2028}' || c == '\U{2029}'
                    || c == '\t' || c in {'\n', '\U{000B}', '\U{000C}', '\r', '\U{0085}'})
  {
    c == ' ' || c == '\t' || ('\n' <= c <= '\r') || c == '\U{0085}' || c == '\U{00A0}'
    || c == '\U{1680}' || ('\U{2000}' <= c <= '\U{200A}') || c == '\U{2028}' || c == '\U{2029}'
    || c == '\U{202F}' || c == '\U{205F}' || c == '\U{3000}'
  }

  predicate AllWhitespace(s: string)
  {
    forall k :: 0 <= k < |s| ==> IsWhitespaceOrNewline(s[k])
  }

  /** Neither end of `s` is whitespace. */
  predicate Trimmed(s: string)
  {
    s == [] || (!IsWhitespaceOrNewline(s[0]) && !IsWhitespaceOrNewline(s[|s| - 1]))
  }

  /** The first position at or after `i` that does not hold whitespace (or the end). */
  function SkipLeading(s: string, i: nat): (j: nat)
    requires i <= |s|
    decreases |s| - i
    ensures i <= j <= |s|
    ensures forall k :: i <= k < j ==> IsWhitespaceOrNewline(s[k])
    ensures j < |s| ==> !IsWhitespaceOrNewline(s[j])
  {
    if i < |s| && IsWhitespaceOrNewline(s[i]) then SkipLeading(s, i + 1) else i
  }

  /** Scanning back from `j` to no further than `lo`: the end of the last non-whitespace character (or `lo`). */
  function SkipTrailing(s: string, lo: nat, j: nat): (e: nat)
    requires lo <= j <= |s|
    ensures lo <= e <= j
    ensures forall k :: e <= k < j ==> IsWhitespaceOrNewline(s[k])
    ensures lo < e ==> !IsWhitespaceOrNewline(s[e - 1])
  {
    if lo < j && IsWhitespaceOrNewline(s[j - 1]) then SkipTrailing(s, lo, j - 1) else j
  }

  /**
   * `trimmingCharacters(in: .whitespacesAndNewlines)`: the text between the
   * first and the last character that is not whitespace.
   */
  function Trim(s: string): (r: string)
    ensures Trimmed(r) && |r| <= |s|
  {
    var a := SkipLeading(s, 0);
    s[a..SkipTrailing(s, a, |s|)]
  }

  /** Only whitespace is removed: the trimmed text is a substring of `s` with only whitespace around it. */
  lemma TrimShape(s: string)
    ensures exists i: nat :: OccursAt(s, Trim(s), i) && AllWhitespace(s[..i]) && AllWhitespace(s[i + |Trim(s)|..])
  {
    var i := TrimAt(s);
  }

  /** Where the trimmed text sits in `s`: after the leading whitespace, and followed by the trailing whitespace. */
  lemma TrimAt(s: string) returns (i: nat)
    ensures OccursAt(s, Trim(s), i) && AllWhitespace(s[..i]) && AllWhitespace(s[i + |Trim(s)|..])
  {
    i := SkipLeading(s, 0);
    var e := SkipTrailing(s, i, |s|);
    assert Trim(s) == s[i..e];
    assert forall k :: 0 <= k < |s[e..]| ==> s[e..][k] == s[e + k];
  }

  /** A string with no whitespace at either end is left as it is. */
  lemma TrimOfTrimmed(s: string)
    requires Trimmed(s)
    ensures Trim(s) == s
  {
  }

  /** Trimming twice is trimming once. */
  lemma TrimIdempotent(s: string)
    ensures Trim(Trim(s)) == Trim(s)
  {
    TrimOfTrimmed(Trim(s));
  }

  /** Trimming keeps a character out if it was out of the input. */
  lemma TrimKeepsOut(s: string, c: char)
    requires c !in s
    ensures c !in Trim(s)
  {
    var i := TrimAt(s);
    OccurrenceKeepsOut(s, Trim(s), i, c);
  }

  /** A character of `t` is an occurrence of the one-character pattern. */
  lemma CharInContains(t: string, c: char)
    requires c in t
    ensures Contains(t, [c])
  {
    var k :| 0 <= k < |t| && t[k] == c;
    OccursChar(t, c, k);
    ContainsAt(t, [c], k);
  }

  /** The trimmed result is a substring of `s`. */
  lemma TrimIsSubstring(s: string)
    ensures Contains(s, Trim(s))
  {
    var r := Trim(s);
    var i := TrimAt(s);
    ContainsAt(s, r, i);
  }

  /** The last piece of a split is part of the text. */
  lemma LastPieceIsPart(s: string, sep: string, piece: string)
    requires |sep| > 0 && Last(Split(s, sep)) == Some(piece)
    ensures Contains(s, piece)
  {
    var pieces := Split(s, sep);
    assert pieces[|pieces| - 1] == piece;
  }

  /** A pattern with a character that `s` lacks occurs nowhere in `s`. */
  lemma MissingCharNoOccurrence(s: string, pat: string, k: nat)
    requires k < |pat| && pat[k] !in s
    ensures forall i: nat :: !OccursAt(s, pat, i)
  {
    forall i: nat ensures !OccursAt(s, pat, i) {
      if i + |pat| <= |s| {
        assert s[i..i + |pat|][k] == s[i + k];
      }
    }
  }

  /** A character absent from `s` is absent from every substring of it. */
  lemma OccurrenceKeepsOut(s: string, r: string, i: nat, c: char)
    requires OccursAt(s, r, i) && c !in s
    ensures c !in r
  {
    forall k | 0 <= k < |r| ensures r[k] != c {
      assert r[k] == s[i..i + |r|][k] == s[i + k];
    }
  }
}
