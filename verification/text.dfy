/**
 The JavaScript string operations the demo relies on, over `seq<char>`:
 `indexOf`, `lastIndexOf`, `includes`, `startsWith`, `endsWith`, a literal
 replace-all, `split` and `Array.prototype.join`.
 */
module Text {

  /** `pat` occurs in `s` starting at index `k`. */
  predicate OccursAt(s: string, pat: string, k: int) {
    0 <= k && k + |pat| <= |s| && s[k..k + |pat|] == pat
  }

  /** The start position JavaScript's `indexOf` uses for a requested position `pos`. */
  function ClampPosition(s: string, pos: int): (r: nat)
    ensures r <= |s|
    ensures 0 <= pos <= |s| ==> r == pos
  {
    if pos < 0 then 0 else if pos > |s| then |s| else pos
  }

  /**
   `s.indexOf(pat, pos)`: the first occurrence of `pat` at or after the
   clamped position, or -1 when there is none.
   */
  function IndexOf(s: string, pat: string, pos: int): (r: int)
    ensures -1 <= r <= |s|
    ensures r >= 0 ==> ClampPosition(s, pos) <= r && OccursAt(s, pat, r)
    ensures forall k | ClampPosition(s, pos) <= k && (r < 0 || k < r) :: !OccursAt(s, pat, k)
    decreases |s| - ClampPosition(s, pos)
  {
    var start := ClampPosition(s, pos);
    if start + |pat| > |s| then -1
    else if OccursAt(s, pat, start) then start
    else IndexOf(s, pat, start + 1)
  }

  /** The last occurrence of `pat` starting at or before `k`, or -1. */
  function LastIndexAtOrBefore(s: string, pat: string, k: int): (r: int)
    ensures r == -1 || (0 <= r <= k && OccursAt(s, pat, r))
    ensures forall j | r < j <= k :: !OccursAt(s, pat, j)
    decreases k + 1
  {
    if k < 0 then -1
    else if OccursAt(s, pat, k) then k
    else LastIndexAtOrBefore(s, pat, k - 1)
  }

  /** `s.lastIndexOf(pat)`: the last occurrence of `pat` in `s`, or -1. */
  function LastIndexOf(s: string, pat: string): (r: int)
    ensures r == -1 || OccursAt(s, pat, r)
    ensures forall j | r < j :: !OccursAt(s, pat, j)
  {
    LastIndexAtOrBefore(s, pat, |s| - |pat|)
  }

  /** `s.includes(pat)`. */
  predicate Contains(s: string, pat: string)
    ensures Contains(s, pat) <==> exists k :: OccursAt(s, pat, k)
  {
    IndexOf(s, pat, 0) >= 0
  }

  /** `s.startsWith(prefix)`. */
  predicate StartsWith(s: string, prefix: string)
    ensures StartsWith(s, prefix) <==> OccursAt(s, prefix, 0)
  {
    prefix <= s
  }

  /** `s.endsWith(suffix)`. */
  predicate EndsWith(s: string, suffix: string)
    ensures EndsWith(s, suffix) <==> OccursAt(s, suffix, |s| - |suffix|)
  {
    |suffix| <= |s| && s[|s| - |suffix|..] == suffix
  }

  /** No character of `a` appears in `b`. */
  predicate Disjoint(a: string, b: string) {
    forall i, j | 0 <= i < |a| && 0 <= j < |b| :: a[i] != b[j]
  }

  /**
   Replaces every occurrence of the non-empty literal `pat`, scanning left
   to right without overlap, by `rep` (what `String.prototype.replace` does
   with a global regular expression that matches only the literal `pat`).
   */
  function ReplaceAll(s: string, pat: string, rep: string): (r: string)
    requires pat != []
    ensures |rep| == |pat| ==> |r| == |s|
    ensures |rep| <= |pat| ==> |r| <= |s|
    decreases |s|
  {
    if |s| < |pat| then s
    else if s[..|pat|] == pat then rep + ReplaceAll(s[|pat|..], pat, rep)
    else [s[0]] + ReplaceAll(s[1..], pat, rep)
  }

  /** `parts.join(sep)`. */
  function Join(parts: seq<string>, sep: string): (r: string)
    ensures parts == [] ==> r == ""
    ensures |parts| == 1 ==> r == parts[0]
  {
    if |parts| == 0 then ""
    else if |parts| == 1 then parts[0]
    else parts[0] + sep + Join(parts[1..], sep)
  }

  /** `s.split(pat)` for a non-empty literal `pat`. */
  function Split(s: string, pat: string): (parts: seq<string>)
    requires pat != []
    ensures |parts| >= 1
    decreases |s|
  {
    var i := IndexOf(s, pat, 0);
    if i < 0 then [s] else [s[..i]] + Split(s[i + |pat|..], pat)
  }

  /** Total length of the strings in `parts`. */
  function TotalLength(parts: seq<string>): nat {
    if |parts| == 0 then 0 else |parts[0]| + TotalLength(parts[1..])
  }

  // ---------------------------------------------------------------------------
  // Occurrences in slices

  lemma OccursInDrop(s: string, pat: string, d: nat, k: int)
    requires d <= |s|
    requires OccursAt(s[d..], pat, k)
    ensures OccursAt(s, pat, k + d)
  {
    assert s[d..][k..k + |pat|] == s[k + d..k + d + |pat|];
  }

  lemma OccursInTake(s: string, pat: string, n: nat, k: int)
    requires n <= |s|
    requires OccursAt(s[..n], pat, k)
    ensures OccursAt(s, pat, k)
  {
    assert s[..n][k..k + |pat|] == s[k..k + |pat|];
  }

  lemma OccursInSlice(s: string, pat: string, i: nat, j: nat, k: int)
    requires i <= j <= |s|
    requires OccursAt(s[i..j], pat, k)
    ensures OccursAt(s, pat, k + i)
  {
    assert s[i..j] == s[i..][..j - i];
    OccursInTake(s[i..], pat, j - i, k);
    OccursInDrop(s, pat, i, k);
  }

  /** A slice of a string without `pat` has no `pat` either. */
  lemma NotContainsSlice(s: string, pat: string, i: nat, j: nat)
    requires i <= j <= |s|
    requires !Contains(s, pat)
    ensures !Contains(s[i..j], pat)
  {
    if Contains(s[i..j], pat) {
      var k :| OccursAt(s[i..j], pat, k);
      OccursInSlice(s, pat, i, j, k);
    }
  }

  /**
   Gluing two strings without `pat` around a character that does not occur
   in `pat` creates no occurrence of `pat`.
   */
  lemma NotContainsAround(x: string, c: char, y: string, pat: string)
    requires pat != []
    requires !Contains(x, pat) && !Contains(y, pat)
    requires c !in pat
    ensures !Contains(x + [c] + y, pat)
  {
    var s := x + [c] + y;
    forall k | 0 <= k && k + |pat| <= |s|
      ensures !OccursAt(s, pat, k)
    {
      if k + |pat| <= |x| {
        assert s[k..k + |pat|] == x[k..k + |pat|];
        assert !OccursAt(x, pat, k);
      } else if k > |x| {
        assert s[|x| + 1..] == y;
        assert s[k..k + |pat|] == s[|x| + 1..][k - |x| - 1..k - |x| - 1 + |pat|];
        assert !OccursAt(y, pat, k - |x| - 1);
      } else {
        assert s[k..k + |pat|][|x| - k] == c;
      }
    }
  }

  // ---------------------------------------------------------------------------
  // ReplaceAll

  /**
   Text before the first occurrence is copied unchanged: if `pat` does not
   start anywhere before `i`, the replacement starts with `s[..i]`.
   */
  lemma {:induction false} ReplaceAllSkips(s: string, pat: string, rep: string, i: nat)
    requires pat != []
    requires i <= |s|
    requires forall k | 0 <= k < i :: !OccursAt(s, pat, k)
    ensures ReplaceAll(s, pat, rep) == s[..i] + ReplaceAll(s[i..], pat, rep)
    decreases i
  {
    if i == 0 {
      assert s[..0] + s[0..] == s;
    } else if |s| < |pat| {
      assert s[..i] + s[i..] == s;
    } else {
      assert !OccursAt(s, pat, 0);
      forall k | 0 <= k < i - 1
        ensures !OccursAt(s[1..], pat, k)
      {
        if OccursAt(s[1..], pat, k) {
          OccursInDrop(s, pat, 1, k);
        }
      }
      ReplaceAllSkips(s[1..], pat, rep, i - 1);
      assert s[1..][i - 1..] == s[i..];
      assert s[1..][..i - 1] == s[1..i];
      assert [s[0]] + s[1..i] == s[..i];
    }
  }

  /** Replacing in a string without `pat` changes nothing. */
  lemma ReplaceAllNoMatch(s: string, pat: string, rep: string)
    requires pat != []
    requires !Contains(s, pat)
    ensures ReplaceAll(s, pat, rep) == s
  {
    ReplaceAllSkips(s, pat, rep, |s|);
    assert s[..|s|] == s;
  }

  /** No proper suffix of `pat` is also a prefix of it, so two occurrences never overlap. */
  predicate BorderFree(pat: string) {
    forall d | 0 < d < |pat| :: pat[d..] != pat[..|pat| - d]
  }

  /**
   For a pattern that cannot overlap itself, the first occurrence after an
   occurrence-free prefix is replaced on its own: the prefix is kept and the
   rest is replaced independently.
   */
  lemma ReplaceAllAround(x: string, pat: string, rep: string, y: string)
    requires pat != [] && BorderFree(pat)
    requires !Contains(x, pat)
    ensures ReplaceAll(x + pat + y, pat, rep) == x + rep + ReplaceAll(y, pat, rep)
  {
    var s := x + pat + y;
    forall k | 0 <= k < |x|
      ensures !OccursAt(s, pat, k)
    {
      if k + |pat| <= |x| {
        assert s[k..k + |pat|] == x[k..k + |pat|];
        assert !OccursAt(x, pat, k);
      } else {
        var d := |x| - k;
        var w := s[k..k + |pat|];
        forall i | 0 <= i < |pat| - d
          ensures w[d..][i] == pat[..|pat| - d][i]
        {
          assert w[d..][i] == s[|x| + i] == (pat + y)[i];
        }
        assert w[d..] == pat[..|pat| - d];
        assert pat[d..] != pat[..|pat| - d];
      }
    }
    ReplaceAllSkips(s, pat, rep, |x|);
    assert s[..|x|] == x;
    var t := s[|x|..];
    assert t == pat + y;
    assert t[..|pat|] == pat && t[|pat|..] == y;
  }

  /**
   The replace-all is split-then-join: the text between occurrences keeps
   its characters and order, and each occurrence becomes exactly `rep`.
   */
  lemma {:induction false} ReplaceAllIsSplitJoin(s: string, pat: string, rep: string)
    requires pat != []
    ensures ReplaceAll(s, pat, rep) == Join(Split(s, pat), rep)
    decreases |s|
  {
    var i := IndexOf(s, pat, 0);
    if i < 0 {
      ReplaceAllNoMatch(s, pat, rep);
    } else {
      var rest := s[i + |pat|..];
      ReplaceAllFirst(s, pat, rep, i);
      ReplaceAllIsSplitJoin(rest, pat, rep);
      SplitFirst(s, pat, i);
    }
  }

  /** The first occurrence, at `i`, is replaced and the rest is handled on its own. */
  lemma ReplaceAllFirst(s: string, pat: string, rep: string, i: nat)
    requires pat != [] && i + |pat| <= |s|
    requires OccursAt(s, pat, i)
    requires forall k | 0 <= k < i :: !OccursAt(s, pat, k)
    ensures ReplaceAll(s, pat, rep) == s[..i] + rep + ReplaceAll(s[i + |pat|..], pat, rep)
  {
    ReplaceAllSkips(s, pat, rep, i);
    assert s[i..][..|pat|] == pat;
    ReplaceAllAtStart(s[i..], pat, rep);
    assert s[i..][|pat|..] == s[i + |pat|..];
  }

  /** A string that starts with `pat` has that occurrence replaced first. */
  lemma ReplaceAllAtStart(t: string, pat: string, rep: string)
    requires pat != [] && |t| >= |pat| && t[..|pat|] == pat
    ensures ReplaceAll(t, pat, rep) == rep + ReplaceAll(t[|pat|..], pat, rep)
  {
  }

  /** Splitting at the first occurrence `i` gives the text before it, then the split of the rest, joined by `rep`. */
  lemma SplitFirst(s: string, pat: string, i: nat)
    requires pat != [] && i + |pat| <= |s|
    requires i == IndexOf(s, pat, 0)
    ensures forall rep: string {:trigger Join(Split(s, pat), rep)} ::
      Join(Split(s, pat), rep) == s[..i] + rep + Join(Split(s[i + |pat|..], pat), rep)
  {
    var parts := Split(s, pat);
    assert parts[1..] == Split(s[i + |pat|..], pat);
  }

  /** Splitting on `pat` and joining with `pat` gives back the original text. */
  lemma {:induction false} SplitJoinRoundTrip(s: string, pat: string)
    requires pat != []
    ensures Join(Split(s, pat), pat) == s
    decreases |s|
  {
    var i := IndexOf(s, pat, 0);
    if i >= 0 {
      var rest := s[i + |pat|..];
      SplitJoinRoundTrip(rest, pat);
      var parts := Split(s, pat);
      assert parts[1..] == Split(rest, pat);
      assert s == s[..i] + pat + rest;
    }
  }

  /** No piece produced by `Split` contains the separator. */
  lemma {:induction false} SplitPiecesAvoidSeparator(s: string, pat: string)
    requires pat != []
    ensures forall p | p in Split(s, pat) :: !Contains(p, pat)
    decreases |s|
  {
    var i := IndexOf(s, pat, 0);
    if i >= 0 {
      var rest := s[i + |pat|..];
      SplitPiecesAvoidSeparator(rest, pat);
      if Contains(s[..i], pat) {
        var k :| OccursAt(s[..i], pat, k);
        OccursInSlice(s, pat, 0, i, k);
      }
    }
  }

  /**
   When no character of the prefix of a replacement result belongs to the
   (non-empty) `rep`, that prefix was copied unchanged from the input.
   */
  lemma {:induction false} ReplaceAllPrefixKept(t: string, pat: string, rep: string, m: nat)
    requires pat != [] && rep != []
    requires m <= |ReplaceAll(t, pat, rep)|
    requires forall i | 0 <= i < m :: ReplaceAll(t, pat, rep)[i] !in rep
    ensures m <= |t| && ReplaceAll(t, pat, rep)[..m] == t[..m]
    decreases |t|
  {
    var r := ReplaceAll(t, pat, rep);
    if |t| < |pat| {
    } else if t[..|pat|] == pat {
      assert r[0] == rep[0] && rep[0] in rep;
    } else if m > 0 {
      var r' := ReplaceAll(t[1..], pat, rep);
      assert r == [t[0]] + r';
      forall i | 0 <= i < m - 1
        ensures r'[i] !in rep
      {
        assert r'[i] == r[i + 1];
      }
      ReplaceAllPrefixKept(t[1..], pat, rep, m - 1);
      assert r[..m] == [t[0]] + r'[..m - 1];
      assert t[..m] == [t[0]] + t[1..][..m - 1];
    }
  }

  /**
   When `pat` and `rep` share no character, the replace-all leaves no
   occurrence of `pat` behind.
   */
  lemma {:induction false} ReplaceAllRemovesAll(s: string, pat: string, rep: string)
    requires pat != [] && rep != []
    requires Disjoint(pat, rep)
    ensures !Contains(ReplaceAll(s, pat, rep), pat)
    decreases |s|
  {
    var r := ReplaceAll(s, pat, rep);
    if |s| < |pat| {
      assert r == s;
    } else if s[..|pat|] == pat {
      var r' := ReplaceAll(s[|pat|..], pat, rep);
      ReplaceAllRemovesAll(s[|pat|..], pat, rep);
      assert r == rep + r';
      forall k | 0 <= k && k + |pat| <= |r|
        ensures !OccursAt(r, pat, k)
      {
        if k < |rep| {
          assert r[k..k + |pat|][0] == rep[k];
        } else {
          assert r[k..k + |pat|] == r'[k - |rep|..k - |rep| + |pat|];
          assert !OccursAt(r', pat, k - |rep|);
        }
      }
    } else {
      var r' := ReplaceAll(s[1..], pat, rep);
      ReplaceAllRemovesAll(s[1..], pat, rep);
      assert r == [s[0]] + r';
      forall k | 0 <= k && k + |pat| <= |r|
        ensures !OccursAt(r, pat, k)
      {
        if k > 0 {
          assert r[k..k + |pat|] == r'[k - 1..k - 1 + |pat|];
          assert !OccursAt(r', pat, k - 1);
        } else {
          ReplaceAllFirstWindow(s, pat, rep);
        }
      }
    }
  }

  /**
   The step of `ReplaceAllRemovesAll` for a string that does not start with
   `pat`: the first `|pat|` characters of the result are not `pat`.
   */
  lemma ReplaceAllFirstWindow(s: string, pat: string, rep: string)
    requires pat != [] && rep != []
    requires Disjoint(pat, rep)
    requires |s| >= |pat| && s[..|pat|] != pat
    requires |pat| <= |ReplaceAll(s, pat, rep)|
    ensures ReplaceAll(s, pat, rep)[..|pat|] != pat
  {
    var r := ReplaceAll(s, pat, rep);
    var r' := ReplaceAll(s[1..], pat, rep);
    var m := |pat| - 1;
    assert r == [s[0]] + r';
    if i :| 0 <= i < m && r'[i] in rep {
      var j :| 0 <= j < |rep| && rep[j] == r'[i];
      assert pat[i + 1] != rep[j];
      assert r[..|pat|][i + 1] == r'[i];
    } else {
      ReplaceAllPrefixKept(s[1..], pat, rep, m);
      assert s[..|pat|] == [s[0]] + s[1..][..m];
      assert r[..|pat|] == [s[0]] + r'[..m];
    }
  }

  // ---------------------------------------------------------------------------
  // Join

  /** The joined text is the parts' characters plus one separator between each pair. */
  lemma {:induction false} JoinLength(parts: seq<string>, sep: string)
    ensures parts != [] ==> |Join(parts, sep)| == TotalLength(parts) + (|parts| - 1) * |sep|
  {
    if |parts| > 1 {
      JoinLength(parts[1..], sep);
    }
  }

  /** Joining after appending one part adds the separator and that part at the end. */
  lemma {:induction false} JoinSnoc(parts: seq<string>, last: string, sep: string)
    requires parts != []
    ensures Join(parts + [last], sep) == Join(parts, sep) + sep + last
  {
    if |parts| == 1 {
      assert (parts + [last])[1..] == [last];
    } else {
      assert (parts + [last])[1..] == parts[1..] + [last];
      JoinSnoc(parts[1..], last, sep);
    }
  }
}
