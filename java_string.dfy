/**
 * The parts of `java.lang.String` that the resume service relies on:
 * `indexOf`, `lastIndexOf`, `substring`, `trim` and `replace`.
 * A Java string is modelled as `seq<char>`, a sequence of Unicode scalar
 * values, with indices counted in those values rather than in UTF-16 code units.
 */
module JavaString {
  import opened Wrappers

  /** The exceptions a `String` method can throw here. */
  datatype StringError = StringIndexOutOfBounds(begin: int, end: int, length: int)

  /** `p` occurs in `s` starting at index `k`. */
  predicate OccursAt(s: string, p: string, k: int) {
    0 <= k && k + |p| <= |s| && s[k..k + |p|] == p
  }

  /** `p` occurs nowhere in `s`. */
  ghost predicate Absent(s: string, p: string) {
    forall k :: !OccursAt(s, p, k)
  }

  // ---------------------------------------------------------------------------
  // indexOf

  /** The first occurrence of `p` in `s` at or after `from`, or -1. */
  function IndexOfFrom(s: string, p: string, from: nat): (r: int)
    ensures r == -1 || (from <= r && OccursAt(s, p, r))
    ensures r == -1 ==> forall k :: from <= k ==> !OccursAt(s, p, k)
    ensures r != -1 ==> forall k :: from <= k < r ==> !OccursAt(s, p, k)
    decreases |s| - from
  {
    if |s| < from + |p| then -1
    else if s[from..from + |p|] == p then from
    else IndexOfFrom(s, p, from + 1)
  }

  /** Java's `s.indexOf(p)`: the least index at which `p` occurs, or -1. */
  function IndexOf(s: string, p: string): (r: int)
    ensures r == -1 <==> Absent(s, p)
    ensures r != -1 ==> OccursAt(s, p, r) && forall k :: 0 <= k < r ==> !OccursAt(s, p, k)
  {
    IndexOfFrom(s, p, 0)
  }

  /** `i` is the first occurrence of `p` in `s`. */
  predicate IsFirst(s: string, p: string, i: int) {
    OccursAt(s, p, i) && forall k :: 0 <= k < i ==> !OccursAt(s, p, k)
  }

  /** `IndexOf` returns exactly the first occurrence: the two descriptions agree. */
  lemma {:induction false} IndexOfIsFirst(s: string, p: string, i: int)
    requires 0 <= i
    ensures IndexOf(s, p) == i <==> IsFirst(s, p, i)
  {
    var r := IndexOf(s, p);
    if IsFirst(s, p, i) {
      assert r != -1;
    }
  }

  // ---------------------------------------------------------------------------
  // lastIndexOf

  /** The last occurrence of `p` in `s` at or before `upto`, or -1. */
  function LastIndexOfUpTo(s: string, p: string, upto: int): (r: int)
    ensures r == -1 || (0 <= r <= upto && OccursAt(s, p, r))
    ensures forall k :: r < k <= upto ==> !OccursAt(s, p, k)
    decreases upto + 1
  {
    if upto < 0 then -1
    else if OccursAt(s, p, upto) then upto
    else LastIndexOfUpTo(s, p, upto - 1)
  }

  /** Java's `s.lastIndexOf(p)`: the greatest index at which `p` occurs, or -1. */
  function LastIndexOf(s: string, p: string): (r: int)
    ensures r == -1 <==> Absent(s, p)
    ensures r != -1 ==> OccursAt(s, p, r) && forall k :: r < k ==> !OccursAt(s, p, k)
  {
    LastIndexOfUpTo(s, p, |s| - |p|)
  }

  /** `j` is the last occurrence of `p` in `s`. */
  ghost predicate IsLast(s: string, p: string, j: int) {
    OccursAt(s, p, j) && forall k :: j < k ==> !OccursAt(s, p, k)
  }

  /** `LastIndexOf` returns exactly the last occurrence. */
  lemma {:induction false} LastIndexOfIsLast(s: string, p: string, j: int)
    requires 0 <= j
    ensures LastIndexOf(s, p) == j <==> IsLast(s, p, j)
  {
    var r := LastIndexOf(s, p);
    if IsLast(s, p, j) {
      assert r != -1;
    }
  }

  /** An occurrence inside a slice is an occurrence in the slice, shifted. */
  lemma {:induction false} OccursInSlice(s: string, p: string, lo: int, hi: int, c: int)
    requires 0 <= lo <= c && c + |p| <= hi <= |s| && OccursAt(s, p, c)
    ensures OccursAt(s[lo..hi], p, c - lo)
  {
    var u := s[lo..hi][c - lo..c - lo + |p|];
    var w := s[c..c + |p|];
    forall k | 0 <= k < |p| ensures u[k] == w[k] {
      assert u[k] == s[c + k];
    }
    assert u == w;
  }

  // ---------------------------------------------------------------------------
  // substring

  /**
   * Java's `s.substring(begin, end)`: throws `StringIndexOutOfBoundsException`
   * when `begin < 0`, `end > length()` or `begin > end`.
   */
  function Substring(s: string, begin: int, end: int): (r: Result<string, StringError>)
    ensures r.Success? <==> 0 <= begin <= end <= |s|
    ensures r.Success? ==> |r.value| == end - begin && forall i :: 0 <= i < |r.value| ==> r.value[i] == s[begin + i]
    ensures r.Failure? ==> r.error == StringIndexOutOfBounds(begin, end, |s|)
  {
    if begin < 0 || end > |s| || begin > end then Failure(StringIndexOutOfBounds(begin, end, |s|))
    else Success(s[begin..end])
  }

  // ---------------------------------------------------------------------------
  // trim

  /** Java's `trim` treats every character up to and including the space as blank. */
  predicate IsBlank(c: char) {
    c <= ' '
  }

  predicate AllBlank(t: string) {
    forall k :: 0 <= k < |t| ==> IsBlank(t[k])
  }

  /** The first loop of `trim`: advance `st` past leading blanks. */
  function SkipLeading(s: string, st: nat): (n: nat)
    requires st <= |s|
    ensures st <= n <= |s|
    ensures forall k :: st <= k < n ==> IsBlank(s[k])
    ensures n < |s| ==> !IsBlank(s[n])
    decreases |s| - st
  {
    if st < |s| && IsBlank(s[st]) then SkipLeading(s, st + 1) else st
  }

  /** The second loop of `trim`: pull `len` back past trailing blanks, never below `st`. */
  function SkipTrailing(s: string, st: nat, len: nat): (n: nat)
    requires st <= len <= |s|
    ensures st <= n <= len
    ensures forall k :: n <= k < len ==> IsBlank(s[k])
    ensures st < n ==> !IsBlank(s[n - 1])
    decreases len
  {
    if st < len && IsBlank(s[len - 1]) then SkipTrailing(s, st, len - 1) else len
  }

  /** Java's `s.trim()`: `s` without its leading and trailing characters `<= ' '`. */
  function Trim(s: string): (r: string)
    ensures |r| <= |s|
    ensures r != [] ==> !IsBlank(r[0]) && !IsBlank(r[|r| - 1])
  {
    var st := SkipLeading(s, 0);
    s[st..SkipTrailing(s, st, |s|)]
  }

  /** What `Trim` removes is blank: `s` is blanks, then `Trim(s)`, then blanks. */
  lemma {:induction false} TrimSplits(s: string)
    ensures exists pre, post :: s == pre + Trim(s) + post && AllBlank(pre) && AllBlank(post)
  {
    var st := SkipLeading(s, 0);
    var len := SkipTrailing(s, st, |s|);
    assert s == s[..st] + s[st..len] + s[len..];
    assert AllBlank(s[..st]) && AllBlank(s[len..]);
  }

  /**
   * `Trim` is characterised by its contract: any split of `s` into blanks, a core
   * that neither starts nor ends with a blank, and blanks, has `Trim(s)` as its core.
   */
  lemma {:induction false} TrimUnique(s: string, pre: string, t: string, post: string)
    requires s == pre + t + post && AllBlank(pre) && AllBlank(post)
    requires t != [] ==> !IsBlank(t[0]) && !IsBlank(t[|t| - 1])
    ensures Trim(s) == t
  {
    var st := SkipLeading(s, 0);
    var len := SkipTrailing(s, st, |s|);
    if t == [] {
      assert AllBlank(s) by {
        forall k | 0 <= k < |s| ensures IsBlank(s[k]) {
          if k < |pre| { assert s[k] == pre[k]; } else { assert s[k] == post[k - |pre|]; }
        }
      }
      assert st == |s|;
    } else {
      assert s[|pre|] == t[0];
      assert forall k :: 0 <= k < |pre| ==> s[k] == pre[k];
      assert st == |pre|;
      var e := |pre| + |t|;
      assert s[e - 1] == t[|t| - 1];
      assert forall k :: e <= k < |s| ==> s[k] == post[k - e];
      assert len == e;
      assert s[st..len] == t;
    }
  }

  /** Trimming twice is trimming once. */
  lemma {:induction false} TrimIdempotent(s: string)
    ensures Trim(Trim(s)) == Trim(s)
  {
    var t := Trim(s);
    TrimUnique(t, [], t, []);
  }

  /** An occurrence of a text without blanks survives trimming. */
  lemma {:induction false} TrimKeepsOccurrence(s: string, p: string, d: int)
    requires OccursAt(s, p, d) && p != []
    requires forall k :: 0 <= k < |p| ==> !IsBlank(p[k])
    ensures !Absent(Trim(s), p)
  {
    var st := SkipLeading(s, 0);
    var len := SkipTrailing(s, st, |s|);
    var e := d + |p| - 1;
    assert s[d] == s[d..d + |p|][0] == p[0];
    assert s[e] == s[d..d + |p|][|p| - 1] == p[|p| - 1];
    assert st <= d && e < len;
    var t := s[st..len];
    assert t[d - st..d - st + |p|] == s[d..d + |p|];
    assert OccursAt(t, p, d - st);
  }

  // ---------------------------------------------------------------------------
  // replace

  /**
   * Java's `s.replace(target, replacement)`: find the first occurrence of
   * `target`, emit the text before it and `replacement`, and continue after
   * the occurrence, so that occurrences are replaced left to right and never
   * overlap. An empty `target` is not needed by the service and not modelled.
   */
  function ReplaceAll(s: string, target: string, replacement: string): (r: string)
    requires |target| > 0
    ensures Absent(s, target) ==> r == s
    decreases |s|
  {
    var i := IndexOf(s, target);
    if i == -1 then s
    else s[..i] + replacement + ReplaceAll(s[i + |target|..], target, replacement)
  }

  /** At the first occurrence, `ReplaceAll` emits the prefix and the replacement and goes on after it. */
  lemma {:induction false} ReplaceAllAt(s: string, target: string, replacement: string, i: int)
    requires |target| > 0 && i == IndexOf(s, target) && i != -1
    ensures ReplaceAll(s, target, replacement) == s[..i] + replacement + ReplaceAll(s[i + |target|..], target, replacement)
  {
  }

  /** A string is the text before an occurrence, the occurrence, and the text after it. */
  lemma {:induction false} SplitAt(s: string, p: string, i: int)
    requires OccursAt(s, p, i)
    ensures s == s[..i] + p + s[i + |p|..]
  {
    assert s == s[..i] + s[i..i + |p|] + s[i + |p|..];
  }

  /**
   * An independent reference for `ReplaceAll`: scan `s` from the left, and at each
   * position either consume an occurrence of `target` or copy one character.
   */
  function ReplaceScan(s: string, target: string, replacement: string): string
    requires |target| > 0
    decreases |s|
  {
    if s == [] then []
    else if OccursAt(s, target, 0) then replacement + ReplaceScan(s[|target|..], target, replacement)
    else [s[0]] + ReplaceScan(s[1..], target, replacement)
  }

  /** The scan copies any prefix in which no occurrence of `target` starts. */
  lemma {:induction false} ScanCopies(s: string, target: string, replacement: string, n: nat)
    requires |target| > 0 && n <= |s|
    requires forall k :: 0 <= k < n ==> !OccursAt(s, target, k)
    ensures ReplaceScan(s, target, replacement) == s[..n] + ReplaceScan(s[n..], target, replacement)
  {
    if n > 0 {
      assert !OccursAt(s, target, 0);
      var t := s[1..];
      forall k | 0 <= k < n - 1 ensures !OccursAt(t, target, k) {
        assert !OccursAt(s, target, k + 1);
        if k + |target| <= |t| {
          var u, w := t[k..k + |target|], s[k + 1..k + 1 + |target|];
          assert |u| == |w| && forall m :: 0 <= m < |u| ==> u[m] == w[m];
          assert u == w;
        }
      }
      ScanCopies(t, target, replacement, n - 1);
      assert t[n - 1..] == s[n..];
      assert [s[0]] + t[..n - 1] == s[..n];
    }
  }

  /** At an occurrence the scan emits the replacement and resumes after it. */
  lemma {:induction false} ScanAtOccurrence(u: string, target: string, replacement: string)
    requires |target| > 0 && OccursAt(u, target, 0)
    ensures ReplaceScan(u, target, replacement) == replacement + ReplaceScan(u[|target|..], target, replacement)
  {
  }

  /** At the first occurrence, the scan has copied the prefix, emitted the replacement and goes on after it. */
  lemma {:induction false} ScanAtFirst(s: string, target: string, replacement: string, i: int)
    requires |target| > 0 && IsFirst(s, target, i)
    ensures ReplaceScan(s, target, replacement) == s[..i] + replacement + ReplaceScan(s[i + |target|..], target, replacement)
  {
    var u := s[i..];
    var rest := s[i + |target|..];
    assert ReplaceScan(s, target, replacement) == s[..i] + ReplaceScan(u, target, replacement) by {
      ScanCopies(s, target, replacement, i);
    }
    assert ReplaceScan(u, target, replacement) == replacement + ReplaceScan(rest, target, replacement) by {
      assert u[..|target|] == s[i..i + |target|] && u[|target|..] == rest;
      ScanAtOccurrence(u, target, replacement);
    }
  }

  /** With no occurrence of `target`, the scan copies the whole string. */
  lemma {:induction false} ScanWithoutTarget(s: string, target: string, replacement: string)
    requires |target| > 0 && IndexOf(s, target) == -1
    ensures ReplaceScan(s, target, replacement) == s
  {
    ScanCopies(s, target, replacement, |s|);
    assert s[..|s|] == s && s[|s|..] == [];
  }

  /** One step of both definitions at the first occurrence keeps them equal. */
  lemma {:induction false} ReplaceStepAgrees(s: string, target: string, replacement: string, i: int)
    requires |target| > 0 && i == IndexOf(s, target) && i != -1
    requires ReplaceAll(s[i + |target|..], target, replacement) == ReplaceScan(s[i + |target|..], target, replacement)
    ensures ReplaceAll(s, target, replacement) == ReplaceScan(s, target, replacement)
  {
    var rest := s[i + |target|..];
    calc {
      ReplaceAll(s, target, replacement);
    == { ReplaceAllAt(s, target, replacement, i); }
      s[..i] + replacement + ReplaceAll(rest, target, replacement);
      s[..i] + replacement + ReplaceScan(rest, target, replacement);
    == { ScanAtFirst(s, target, replacement, i); }
      ReplaceScan(s, target, replacement);
    }
  }

  /** Java's indexOf-driven replacement and the left-to-right scan agree on every input. */
  lemma {:induction false} ReplaceAllIsScan(s: string, target: string, replacement: string)
    requires |target| > 0
    ensures ReplaceAll(s, target, replacement) == ReplaceScan(s, target, replacement)
    decreases |s|
  {
    var i := IndexOf(s, target);
    if i == -1 {
      ScanWithoutTarget(s, target, replacement);
    } else {
      ReplaceAllIsScan(s[i + |target|..], target, replacement);
      ReplaceStepAgrees(s, target, replacement, i);
    }
  }

  /** Replacing a target by itself leaves every string unchanged. */
  lemma {:induction false} ReplaceAllSelf(s: string, target: string)
    requires |target| > 0
    ensures ReplaceAll(s, target, target) == s
    decreases |s|
  {
    var i := IndexOf(s, target);
    if i != -1 {
      var rest := s[i + |target|..];
      ReplaceAllSelf(rest, target);
      ReplaceAllAt(s, target, target, i);
      SplitAt(s, target, i);
    }
  }

  /** Gluing a target-free text, a replacement and a target-free text creates no occurrence. */
  lemma {:induction false} Glue(x: string, v: string, y: string, t: string)
    requires |t| > 0 && |v| > 0
    requires forall k :: 0 <= k < |v| ==> v[k] !in t
    requires Absent(x, t) && Absent(y, t)
    ensures Absent(x + v + y, t)
  {
    var r := x + v + y;
    var m := |x| + |v|;
    forall k | 0 <= k && k + |t| <= |r| ensures !OccursAt(r, t, k) {
      if k + |t| <= |x| {
        assert !OccursAt(x, t, k);
        assert r[k..k + |t|] == x[k..k + |t|];
      } else if k < m {
        // the candidate occurrence covers a character of the replacement
        var c := if k < |x| then |x| else k;
        assert r[k..k + |t|][c - k] == v[c - |x|];
        assert v[c - |x|] != t[c - k];
      } else {
        assert !OccursAt(y, t, k - m);
        assert r[k..k + |t|] == y[k - m..k - m + |t|];
      }
    }
  }

  /** The text before the first occurrence holds no occurrence. */
  lemma {:induction false} PrefixBeforeFirstIsFree(s: string, target: string, i: int)
    requires |target| > 0 && i == IndexOf(s, target) && i != -1
    ensures Absent(s[..i], target)
  {
    var x := s[..i];
    forall k | 0 <= k && k + |target| <= |x| ensures !OccursAt(x, target, k) {
      assert !OccursAt(s, target, k);
      assert x[k..k + |target|] == s[k..k + |target|];
    }
  }

  /**
   * When the replacement is non-empty and shares no character with the target,
   * no occurrence of the target survives the replacement: none is left in the
   * copied text, and none can form inside or across an inserted replacement.
   */
  lemma {:induction false} ReplaceAllRemovesTarget(s: string, target: string, replacement: string)
    requires |target| > 0 && |replacement| > 0
    requires forall k :: 0 <= k < |replacement| ==> replacement[k] !in target
    ensures Absent(ReplaceAll(s, target, replacement), target)
    decreases |s|
  {
    var i := IndexOf(s, target);
    if i != -1 {
      var rest := s[i + |target|..];
      ReplaceAllRemovesTarget(rest, target, replacement);
      PrefixBeforeFirstIsFree(s, target, i);
      Glue(s[..i], replacement, ReplaceAll(rest, target, replacement), target);
      ReplaceAllAt(s, target, replacement, i);
    }
  }
}
