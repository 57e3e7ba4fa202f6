/** The fragment of Python's `str` that the mirroring script relies on: `find`, `rfind`,
    `startswith`, `endswith`, slicing with negative indices, `replace`, `split`, `join` and
    `strip`. Each function is total where Python's method is total, and its contract ties it
    to an independent description (occurrence positions, concatenation). */
module PyStr {

  /** `p` occurs in `s` starting at index `i`. */
  predicate OccursAt(s: string, p: string, i: int)
  {
    0 <= i <= |s| - |p| && s[i..i + |p|] == p
  }

  predicate Contains(s: string, p: string)
  {
    exists i :: 0 <= i <= |s| && OccursAt(s, p, i)
  }

  predicate StartsWith(s: string, p: string)
  {
    |p| <= |s| && s[..|p|] == p
  }

  predicate EndsWith(s: string, p: string)
  {
    |p| <= |s| && s[|s| - |p|..] == p
  }

  lemma OccursShift(s: string, p: string, i: int)
    requires |s| > 0 && i >= 0
    ensures OccursAt(s, p, i + 1) <==> OccursAt(s[1..], p, i)
  {
    if 0 <= i <= |s[1..]| - |p| {
      assert s[1..][i..i + |p|] == s[i + 1..i + 1 + |p|];
    }
  }

  lemma OccursInPrefix(s: string, n: nat, p: string, i: int)
    requires n <= |s|
    ensures OccursAt(s[..n], p, i) <==> (OccursAt(s, p, i) && i + |p| <= n)
  {
    if 0 <= i && i + |p| <= n {
      assert s[..n][i..i + |p|] == s[i..i + |p|];
    }
  }

  lemma OccursInSuffix(s: string, n: nat, p: string, i: int)
    requires n <= |s|
    ensures OccursAt(s[n..], p, i) <==> (i >= 0 && OccursAt(s, p, n + i))
  {
    if 0 <= i && n + i + |p| <= |s| {
      assert s[n..][i..i + |p|] == s[n + i..n + i + |p|];
    }
  }

  /** `s.find(p)`: the first index at which `p` occurs, or -1 (FindSpec). */
  function Find(s: string, p: string): (r: int)
    ensures r == -1 || 0 <= r <= |s| - |p|
  {
    if StartsWith(s, p) then 0
    else if |s| == 0 then -1
    else
      var r := Find(s[1..], p);
      if r == -1 then -1 else r + 1
  }

  /** `find` returns the first occurrence, and -1 exactly when there is none. */
  lemma {:induction false} FindSpec(s: string, p: string)
    ensures Find(s, p) == -1 <==> !Contains(s, p)
    ensures Find(s, p) != -1 ==> OccursAt(s, p, Find(s, p))
    ensures forall j :: 0 <= j < Find(s, p) ==> !OccursAt(s, p, j)
    decreases |s|
  {
    if StartsWith(s, p) {
      assert OccursAt(s, p, 0);
    } else if |s| == 0 {
      assert forall j :: !OccursAt(s, p, j);
    } else {
      FindSpec(s[1..], p);
      var r := Find(s[1..], p);
      forall j | j >= 0 ensures OccursAt(s, p, j + 1) <==> OccursAt(s[1..], p, j) {
        OccursShift(s, p, j);
      }
      assert !OccursAt(s, p, 0);
      if r == -1 {
        assert forall j :: !OccursAt(s, p, j) by {
          forall j ensures !OccursAt(s, p, j) {
            if j > 0 { assert !OccursAt(s[1..], p, j - 1); }
          }
        }
      } else {
        assert forall j :: 0 <= j < r + 1 ==> !OccursAt(s, p, j) by {
          forall j | 0 <= j < r + 1 ensures !OccursAt(s, p, j) {
            if j > 0 { assert !OccursAt(s[1..], p, j - 1); }
          }
        }
      }
    }
  }

  /** `s.find(p, start)` for a start index inside `s` (FindFromSpec). */
  function FindFrom(s: string, p: string, start: nat): (r: int)
    requires start <= |s|
    ensures r == -1 || start <= r <= |s| - |p|
  {
    var r := Find(s[start..], p);
    if r == -1 then -1 else start + r
  }

  lemma FindFromSpec(s: string, p: string, start: nat)
    requires start <= |s|
    ensures FindFrom(s, p, start) == -1 <==> forall j :: j >= start ==> !OccursAt(s, p, j)
    ensures FindFrom(s, p, start) != -1 ==> OccursAt(s, p, FindFrom(s, p, start))
    ensures forall j :: start <= j < FindFrom(s, p, start) ==> !OccursAt(s, p, j)
  {
    var r := Find(s[start..], p);
    FindSpec(s[start..], p);
    forall j ensures OccursAt(s[start..], p, j) <==> (j >= 0 && OccursAt(s, p, start + j)) {
      OccursInSuffix(s, start, p, j);
    }
    if r == -1 {
      assert forall j :: j >= start ==> !OccursAt(s, p, j) by {
        forall j | j >= start ensures !OccursAt(s, p, j) {
          assert !OccursAt(s[start..], p, j - start);
        }
      }
    } else {
      assert forall j :: start <= j < start + r ==> !OccursAt(s, p, j) by {
        forall j | start <= j < start + r ensures !OccursAt(s, p, j) {
          assert !OccursAt(s[start..], p, j - start);
        }
      }
    }
  }

  /** `s.rfind(p)`: the last index at which `p` occurs, or -1 (RFindSpec). */
  function RFind(s: string, p: string): (r: int)
    ensures r == -1 || 0 <= r <= |s| - |p|
    decreases |s|
  {
    if |s| < |p| then -1
    else if OccursAt(s, p, |s| - |p|) then |s| - |p|
    else RFind(s[..|s| - 1], p)
  }

  /** `rfind` returns the last occurrence, and -1 exactly when there is none. */
  lemma {:induction false} RFindSpec(s: string, p: string)
    ensures RFind(s, p) == -1 <==> !Contains(s, p)
    ensures RFind(s, p) != -1 ==> OccursAt(s, p, RFind(s, p))
    ensures forall j :: RFind(s, p) < j ==> !OccursAt(s, p, j)
    decreases |s|
  {
    if |s| < |p| {
      assert forall j :: !OccursAt(s, p, j);
    } else if !OccursAt(s, p, |s| - |p|) {
      RFindSpec(s[..|s| - 1], p);
      var r := RFind(s[..|s| - 1], p);
      forall j ensures OccursAt(s[..|s| - 1], p, j) <==> (OccursAt(s, p, j) && j + |p| <= |s| - 1) {
        OccursInPrefix(s, |s| - 1, p, j);
      }
      forall j | r < j ensures !OccursAt(s, p, j) {
        if j + |p| <= |s| - 1 {
          assert !OccursAt(s[..|s| - 1], p, j);
        } else if j == |s| - |p| {
        }
      }
      if r != -1 {
        assert OccursAt(s, p, r);
      }
    } else {
      assert Contains(s, p);
    }
  }

  /** Python's normalisation of a slice bound `i` against a length `n`. */
  function SliceIndex(i: int, n: nat): (k: nat)
    ensures k <= n
    ensures 0 <= i <= n ==> k == i
    ensures i < 0 && i + n >= 0 ==> k == n + i
  {
    if i < 0 then (if i + n < 0 then 0 else i + n)
    else if i > n then n
    else i
  }

  /** `s[:i]` */
  function Prefix(s: string, i: int): string
  {
    s[..SliceIndex(i, |s|)]
  }

  /** `s[i:]` */
  function Suffix(s: string, i: int): string
  {
    s[SliceIndex(i, |s|)..]
  }

  /** `s.replace(p, r)`: every non-overlapping occurrence of `p`, scanning from the left, is
      replaced by `r`; an empty `p` inserts `r` before every character and at the end. */
  function Replace(s: string, p: string, r: string): string
    decreases |s|
  {
    if |p| == 0 then
      if |s| == 0 then r else r + [s[0]] + Replace(s[1..], p, r)
    else if |s| == 0 then []
    else if StartsWith(s, p) then r + Replace(s[|p|..], p, r)
    else [s[0]] + Replace(s[1..], p, r)
  }

  /** `s.split(sep)` for a non-empty separator (an empty one raises ValueError in Python). */
  function Split(s: string, sep: string): (parts: seq<string>)
    requires |sep| > 0
    ensures |parts| >= 1
    decreases |s|
  {
    var i := Find(s, sep);
    if i == -1 then [s]
    else [s[..i]] + Split(s[i + |sep|..], sep)
  }

  /** `sep.join(parts)` */
  function Join(parts: seq<string>, sep: string): string
  {
    if |parts| == 0 then []
    else if |parts| == 1 then parts[0]
    else parts[0] + sep + Join(parts[1..], sep)
  }

  /** `s.count(p)` for a non-empty `p`: the number of non-overlapping occurrences, found
      from the left as `find` finds them. */
  function Count(s: string, p: string): nat
    requires |p| > 0
    decreases |s|
  {
    var i := Find(s, p);
    if i == -1 then 0 else 1 + Count(s[i + |p|..], p)
  }

  function StripLeft(s: string, c: char): string
  {
    if |s| > 0 && s[0] == c then StripLeft(s[1..], c) else s
  }

  function StripRight(s: string, c: char): string
  {
    if |s| > 0 && s[|s| - 1] == c then StripRight(s[..|s| - 1], c) else s
  }

  /** `s.strip(c)`: removes every leading and every trailing `c`. */
  function Strip(s: string, c: char): string
  {
    StripRight(StripLeft(s, c), c)
  }

  // ---------------------------------------------------------------------------------------
  // Properties

  lemma {:induction false} StripLeftSpec(s: string, c: char) returns (i: nat)
    ensures i <= |s| && StripLeft(s, c) == s[i..]
    ensures forall k :: 0 <= k < i ==> s[k] == c
    ensures i == |s| || s[i] != c
    decreases |s|
  {
    if |s| > 0 && s[0] == c {
      var i' := StripLeftSpec(s[1..], c);
      i := i' + 1;
      assert s[1..][i'..] == s[i..];
      forall k | 0 <= k < i ensures s[k] == c { if k > 0 { assert s[1..][k - 1] == s[k]; } }
    } else {
      i := 0;
    }
  }

  lemma {:induction false} StripRightSpec(s: string, c: char) returns (j: nat)
    ensures j <= |s| && StripRight(s, c) == s[..j]
    ensures forall k :: j <= k < |s| ==> s[k] == c
    ensures j == 0 || s[j - 1] != c
    decreases |s|
  {
    if |s| > 0 && s[|s| - 1] == c {
      var t := s[..|s| - 1];
      j := StripRightSpec(t, c);
      assert t[..j] == s[..j];
    } else {
      j := |s|;
    }
  }

  /** `strip` keeps a middle slice `s[i..j]` of `s`: everything it drops is `c`, and the
      result neither starts nor ends with `c`. */
  lemma StripSpec(s: string, c: char) returns (i: nat, j: nat)
    ensures i <= j <= |s| && Strip(s, c) == s[i..j]
    ensures forall k :: 0 <= k < i ==> s[k] == c
    ensures forall k :: j <= k < |s| ==> s[k] == c
    ensures i < j ==> s[i] != c && s[j - 1] != c
  {
    i := StripLeftSpec(s, c);
    var t := s[i..];
    var m := StripRightSpec(t, c);
    j := i + m;
    assert t[..m] == s[i..j];
    forall k | j <= k < |s| ensures s[k] == c { assert t[k - i] == s[k]; }
  }

  lemma {:induction false} StripAbsent(s: string, c: char)
    requires c !in s
    ensures Strip(s, c) == s
  {
    assert StripLeft(s, c) == s;
    assert StripRight(s, c) == s;
  }

  /** A character of `p` that `s` lacks rules out every occurrence of `p` in `s`. */
  lemma NotContainsByChar(s: string, p: string, k: nat)
    requires k < |p| && p[k] !in s
    ensures !Contains(s, p)
  {
    forall i | 0 <= i <= |s| ensures !OccursAt(s, p, i) {
    }
  }

  /** `p` is found right after `a` when some character of `p` cannot be met earlier: the
      tool the concrete examples use to locate a needle. */
  lemma FindAfter(a: string, p: string, b: string, k: nat)
    requires k < |p| && p[k] !in a + p[..k]
    ensures Find(a + p + b, p) == |a|
  {
    var s := a + p + b;
    FindSpec(s, p);
    assert s[|a|..|a| + |p|] == p;
    assert OccursAt(s, p, |a|);
    forall i | 0 <= i < |a| ensures !OccursAt(s, p, i) {
      assert (a + p[..k])[i + k] == s[i + k];
    }
  }

  lemma {:induction false} ReplaceAbsent(s: string, p: string, r: string)
    requires |p| > 0 && !Contains(s, p)
    ensures Replace(s, p, r) == s
    decreases |s|
  {
    if |s| > 0 {
      assert !OccursAt(s, p, 0);
      assert !Contains(s[1..], p) by {
        forall j | j >= 0 ensures !OccursAt(s[1..], p, j) { OccursShift(s, p, j); }
      }
      ReplaceAbsent(s[1..], p, r);
      ConsSplit(s);
    }
  }

  /** Where `find` locates the first separator, `split` cuts: the first piece is what
      precedes it and the other pieces are the split of what follows it. */
  lemma SplitUnfold(s: string, sep: string, i: nat, j: nat)
    requires |sep| > 0 && Find(s, sep) == i && j == i + |sep|
    ensures j <= |s|
    ensures var rest := Split(s[j..], sep);
            |Split(s, sep)| == 1 + |rest| && Split(s, sep)[0] == s[..i] && Split(s, sep)[1..] == rest
  {
  }

  /** Without a separator, `split` gives the whole string as its only piece. */
  lemma SplitNone(s: string, sep: string)
    requires |sep| > 0 && Find(s, sep) == -1
    ensures |Split(s, sep)| == 1 && Split(s, sep)[0] == s
  {
  }

  lemma SplitSingle(s: string, sep: string)
    requires |sep| > 0
    ensures |Split(s, sep)| == 1 <==> Find(s, sep) == -1
  {
  }

  /** `split` yields one more piece than there are separators in `s`. */
  lemma {:induction false} SplitCount(s: string, sep: string)
    requires |sep| > 0
    ensures |Split(s, sep)| == Count(s, sep) + 1
    decreases |s|
  {
    var i := Find(s, sep);
    if i != -1 {
      SplitCount(s[i + |sep|..], sep);
    }
  }

  lemma OccursChar(s: string, c: char, j: int)
    ensures OccursAt(s, [c], j) <==> (0 <= j < |s| && s[j] == c)
  {
    if 0 <= j < |s| { assert s[j..j + 1] == [s[j]]; }
  }

  /** For a single character, `find` is the index of its first occurrence. */
  lemma FindChar(s: string, c: char)
    ensures Find(s, [c]) == -1 <==> c !in s
    ensures Find(s, [c]) != -1 ==> s[Find(s, [c])] == c
    ensures forall k :: 0 <= k < Find(s, [c]) ==> s[k] != c
  {
    FindSpec(s, [c]);
    forall j ensures OccursAt(s, [c], j) <==> (0 <= j < |s| && s[j] == c) { OccursChar(s, c, j); }
    if c in s {
      var j :| 0 <= j < |s| && s[j] == c;
      assert OccursAt(s, [c], j);
    }
  }

  /** For a single character, `rfind` is the index of its last occurrence. */
  lemma RFindChar(s: string, c: char)
    ensures RFind(s, [c]) == -1 <==> c !in s
    ensures RFind(s, [c]) != -1 ==> s[RFind(s, [c])] == c
    ensures forall k :: RFind(s, [c]) < k < |s| ==> s[k] != c
  {
    RFindSpec(s, [c]);
    forall j ensures OccursAt(s, [c], j) <==> (0 <= j < |s| && s[j] == c) { OccursChar(s, c, j); }
    if c in s {
      var j :| 0 <= j < |s| && s[j] == c;
      assert OccursAt(s, [c], j);
    }
  }

  /** The last occurrence of `c` in `s` is found in what follows its first occurrence `i`,
      unless there is none after `i`. */
  lemma RFindAfterFirst(s: string, c: char, i: nat)
    requires i < |s| && s[i] == c
    ensures RFind(s, [c]) == (if RFind(s[i + 1..], [c]) == -1 then i else i + 1 + RFind(s[i + 1..], [c]))
  {
    var rest := s[i + 1..];
    var d := RFind(s, [c]);
    var e := RFind(rest, [c]);
    RFindChar(s, c);
    RFindChar(rest, c);
    if e != -1 {
      assert s[i + 1 + e] == c;
    }
  }

  /** What follows the last `c` in `s`; all of `s` when there is none. */
  function AfterLast(s: string, c: char): string
  {
    var d := RFind(s, [c]);
    if d == -1 then s else s[d + 1..]
  }

  /** What precedes the last `c` in `s`; nothing when there is none. */
  function BeforeLast(s: string, c: char): string
  {
    var d := RFind(s, [c]);
    if d == -1 then [] else s[..d]
  }

  /** Splitting on a single character: the last piece is the text after the last
      occurrence of that character. */
  lemma {:induction false} SplitLast(s: string, c: char)
    ensures var parts := Split(s, [c]);
            parts[|parts| - 1] == AfterLast(s, c)
    decreases |s|
  {
    var i := Find(s, [c]);
    if i != -1 {
      SplitLast(s[i + 1..], c);
      SplitLastTail(s, c, i);
      AfterLastStep(s, c, i);
    } else {
      SplitLastNone(s, c);
    }
  }

  lemma SplitLastNone(s: string, c: char)
    requires Find(s, [c]) == -1
    ensures var parts := Split(s, [c]);
            parts[|parts| - 1] == AfterLast(s, c)
  {
    FindRFindNone(s, [c]);
    SplitNone(s, [c]);
    var parts := Split(s, [c]);
    assert |parts| - 1 == 0;
  }

  /** Past the first separator, the last piece is the last piece of the rest. */
  lemma SplitLastTail(s: string, c: char, i: nat)
    requires Find(s, [c]) == i
    ensures var parts := Split(s, [c]);
            var tail := Split(s[i + 1..], [c]);
            parts[|parts| - 1] == tail[|tail| - 1]
  {
    SplitUnfold(s, [c], i, i + 1);
    LastOfTail(Split(s, [c]), Split(s[i + 1..], [c]));
  }

  lemma LastOfTail<T>(a: seq<T>, b: seq<T>)
    requires |a| == 1 + |b| && |b| > 0 && a[1..] == b
    ensures a[|a| - 1] == b[|b| - 1]
  {
    assert a[1..][|b| - 1] == a[|a| - 1];
  }

  /** Past the first `c`, what follows the last `c` is unchanged. */
  lemma AfterLastStep(s: string, c: char, i: nat)
    requires Find(s, [c]) == i
    ensures AfterLast(s, c) == AfterLast(s[i + 1..], c)
  {
    RFindPastFirst(s, c, i);
    var e := RFind(s[i + 1..], [c]);
    if e != -1 {
      DropTwice(s, i + 1, e + 1, RFind(s, [c]) + 1);
    }
  }

  lemma DropTwice(s: string, m: nat, n: nat, k: nat)
    requires k == m + n <= |s|
    ensures s[m..][n..] == s[k..]
  {
  }

  /** The last occurrence of `c`, read off the text after its first occurrence. */
  lemma RFindPastFirst(s: string, c: char, i: nat)
    requires Find(s, [c]) == i
    ensures i < |s| && s[i] == c
    ensures RFind(s, [c]) == (if RFind(s[i + 1..], [c]) == -1 then i else i + 1 + RFind(s[i + 1..], [c]))
  {
    FindCharAt(s, c);
    RFindAfterFirst(s, c, i);
  }

  /** Splitting on a single character: the pieces before the last one, joined back, are
      the text before the last occurrence of that character. */
  lemma {:induction false} SplitInit(s: string, c: char)
    ensures var parts := Split(s, [c]);
            Join(parts[..|parts| - 1], [c]) == BeforeLast(s, c)
    decreases |s|
  {
    var i := Find(s, [c]);
    if i != -1 {
      SplitInit(s[i + 1..], c);
      SplitInitUnfold(s, c, i);
      BeforeLastStep(s, c, i);
    } else {
      SplitInitNone(s, c);
    }
  }

  lemma SplitInitNone(s: string, c: char)
    requires Find(s, [c]) == -1
    ensures var parts := Split(s, [c]);
            Join(parts[..|parts| - 1], [c]) == BeforeLast(s, c)
  {
    FindRFindNone(s, [c]);
    SplitNone(s, [c]);
    InitOfOne(Split(s, [c]), [c]);
  }

  lemma InitOfOne(parts: seq<string>, sep: string)
    requires |parts| == 1
    ensures Join(parts[..|parts| - 1], sep) == []
  {
    assert parts[..0] == [];
  }

  /** Past the first separator, the pieces before the last are the first piece followed
      by those of the rest. */
  lemma SplitInitUnfold(s: string, c: char, i: nat)
    requires Find(s, [c]) == i
    ensures var parts := Split(s, [c]);
            var tail := Split(s[i + 1..], [c]);
            Join(parts[..|parts| - 1], [c]) ==
            if Find(s[i + 1..], [c]) == -1 then s[..i] else s[..i] + [c] + Join(tail[..|tail| - 1], [c])
  {
    SplitUnfold(s, [c], i, i + 1);
    SplitSingle(s[i + 1..], [c]);
    InitCons(Split(s, [c]), Split(s[i + 1..], [c]), s[..i], [c]);
  }

  lemma InitCons(parts: seq<string>, tail: seq<string>, x: string, sep: string)
    requires |parts| == 1 + |tail| && |tail| >= 1 && parts[0] == x && parts[1..] == tail
    ensures Join(parts[..|parts| - 1], sep) ==
              if |tail| == 1 then x else x + sep + Join(tail[..|tail| - 1], sep)
  {
    var q := parts[..|parts| - 1];
    assert q[0] == x;
    if |tail| > 1 {
      assert q[1..] == tail[..|tail| - 1];
    }
  }

  /** Past the first `c`, what precedes the last `c` is the first piece, then `c`, then
      what precedes the last `c` of the rest. */
  lemma BeforeLastStep(s: string, c: char, i: nat)
    requires Find(s, [c]) == i
    ensures BeforeLast(s, c) ==
            if Find(s[i + 1..], [c]) == -1 then s[..i] else s[..i] + [c] + BeforeLast(s[i + 1..], c)
  {
    RFindPastFirst(s, c, i);
    FindRFindNone(s[i + 1..], [c]);
    var e := RFind(s[i + 1..], [c]);
    if e != -1 {
      SliceJoin(s, c, i, e, RFind(s, [c]));
    }
  }

  lemma SliceJoin(s: string, c: char, i: nat, e: nat, k: nat)
    requires i < |s| && s[i] == c && k == i + 1 + e <= |s|
    ensures s[..i] + [c] + s[i + 1..][..e] == s[..k]
  {
  }

  /** A character found by `find` is at the index `find` reports. */
  lemma FindCharAt(s: string, c: char)
    requires Find(s, [c]) != -1
    ensures s[Find(s, [c])] == c
  {
    FindSpec(s, [c]);
    var i := Find(s, [c]);
    assert s[i..i + 1] == [c];
  }

  /** `find` and `rfind` agree on whether there is an occurrence. */
  lemma FindRFindNone(s: string, p: string)
    ensures Find(s, p) == -1 <==> RFind(s, p) == -1
  {
    FindSpec(s, p);
    RFindSpec(s, p);
  }

  /** Replacing does not look inside a prefix that cannot begin the pattern. */
  lemma {:induction false} ReplaceSkip(cs: string, rest: string, p: string, r: string)
    requires |p| > 0 && p[0] !in cs
    ensures Replace(cs + rest, p, r) == cs + Replace(rest, p, r)
    decreases |cs|
  {
    if cs == [] {
      assert cs + rest == rest;
    } else {
      ReplaceSkipStep(cs, rest, p, r);
      ReplaceSkip(cs[1..], rest, p, r);
      ConsAssoc(cs, Replace(rest, p, r));
    }
  }

  lemma ReplaceSkipStep(cs: string, rest: string, p: string, r: string)
    requires |p| > 0 && |cs| > 0 && cs[0] != p[0]
    ensures Replace(cs + rest, p, r) == [cs[0]] + Replace(cs[1..] + rest, p, r)
  {
    ConsAppend(cs, rest);
    NotStartsWith(cs + rest, p);
    ReplaceStep(cs + rest, p, r);
  }

  lemma ConsAssoc(cs: string, x: string)
    requires |cs| > 0
    ensures [cs[0]] + (cs[1..] + x) == cs + x
  {
  }

  /** A string whose first character differs from `p`'s does not start with `p`. */
  lemma NotStartsWith(s: string, p: string)
    requires |s| > 0 && |p| > 0 && s[0] != p[0]
    ensures !StartsWith(s, p)
  {
    if |p| <= |s| {
      assert s[..|p|][0] == s[0];
    }
  }

  /** One character that does not begin an occurrence is copied. */
  lemma ReplaceStep(s: string, p: string, r: string)
    requires |p| > 0 && |s| > 0 && !StartsWith(s, p)
    ensures Replace(s, p, r) == [s[0]] + Replace(s[1..], p, r)
  {
  }

  /** An occurrence at the front is replaced and the scan resumes after it. */
  lemma ReplaceFront(p: string, rest: string, r: string)
    requires |p| > 0
    ensures Replace(p + rest, p, r) == r + Replace(rest, p, r)
  {
    var s := p + rest;
    assert s[..|p|] == p && s[|p|..] == rest;
  }

  /** `p` replaced once in the middle: it occurs first right after `a` and not at all in `b`. */
  lemma ReplaceOnce(a: string, p: string, b: string, r: string)
    requires |p| > 0 && p[0] !in a && !Contains(b, p)
    ensures Replace(a + p + b, p, r) == a + r + b
  {
    assert a + p + b == a + (p + b);
    ReplaceSkip(a, p + b, p, r);
    ReplaceFront(p, b, r);
    ReplaceAbsent(b, p, r);
  }

  /** `rfind` of a character that does not occur after index `|a|`. */
  lemma RFindLast(a: string, c: char, b: string)
    requires c !in b
    ensures RFind(a + [c] + b, [c]) == |a|
  {
    var s := a + [c] + b;
    RFindChar(s, c);
    assert s[|a|] == c;
    var d := RFind(s, [c]);
    assert d >= |a|;
  }

  /** A character absent from the text and from the replacement is absent afterwards. */
  lemma {:induction false} ReplaceKeepsAbsent(s: string, p: string, r: string, c: char)
    requires |p| > 0 && c !in s && c !in r
    ensures c !in Replace(s, p, r)
    decreases |s|
  {
    if |s| > 0 {
      if StartsWith(s, p) {
        ReplaceKeepsAbsent(s[|p|..], p, r, c);
      } else {
        ReplaceKeepsAbsent(s[1..], p, r, c);
      }
    }
  }

  /** The characters of a suffix, read off the end of the string. */
  lemma EndsWithChar(s: string, p: string, k: nat)
    requires EndsWith(s, p) && k < |p|
    ensures s[|s| - |p| + k] == p[k]
  {
    assert s[|s| - |p|..][k] == s[|s| - |p| + k];
  }

  /** A string does not end with `p` when its last character differs from `p`'s. */
  lemma NotEndsWith(s: string, p: string)
    requires |p| > 0 && (|s| < |p| || s[|s| - 1] != p[|p| - 1])
    ensures !EndsWith(s, p)
  {
    if |s| >= |p| {
      assert s[|s| - |p|..][|p| - 1] == s[|s| - 1];
    }
  }

  // ---------------------------------------------------------------------------------------
  // Sequence identities, each kept in a lemma of its own

  lemma ConsSplit<T>(s: seq<T>)
    requires |s| > 0
    ensures [s[0]] + s[1..] == s
  {
  }

  lemma Rejoin<T>(s: seq<T>, k: nat)
    requires k <= |s|
    ensures s[..k] + s[k..] == s
  {
  }

  lemma ConsAppend<T>(a: seq<T>, b: seq<T>)
    requires |a| > 0
    ensures (a + b)[0] == a[0] && (a + b)[1..] == a[1..] + b
  {
  }

  lemma DropAppend<T>(a: seq<T>, b: seq<T>)
    ensures (a + b)[|a|..] == b
  {
  }
}
