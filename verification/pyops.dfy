/**
 The few pieces of Python built-in behaviour that the dataset loader and the
 aspect-aware preprocessor depend on, written out because Dafny's own
 operators differ:
 - `int(x / 2.0)` truncates toward zero, whereas Dafny's `/` is Euclidean;
 - a slice `s[start:stop]` normalises negative and out-of-range bounds
   (Python Library Reference, "Common Sequence Operations", notes 3 to 5;
   NumPy basic slicing follows the same rules);
 - `str.split(sep)` with an explicit separator keeps empty fields.
 */
module PyOps {

  /** Python's `None`-or-value. */
  datatype Option<T> = None | Some(value: T)

  // ---------------------------------------------------------------------------
  // Truncating halving
  // ---------------------------------------------------------------------------

  /** r is x/2 rounded toward zero: 2r lies between 0 and x, less than 2 away from x. */
  predicate IsTruncHalf(x: int, r: int) {
    if x >= 0 then 0 <= 2 * r <= x < 2 * r + 2
    else x <= 2 * r <= 0 && 2 * r - 2 < x
  }

  /** `int(x / 2.0)` for an integer x (exact while |x| < 2^53). */
  function TruncHalf(x: int): (r: int)
    ensures IsTruncHalf(x, r)
  {
    if x >= 0 then x / 2 else -((-x) / 2)
  }

  /** The truncated half is negative exactly when x <= -2 and zero exactly when |x| <= 1. */
  lemma TruncHalfSign(x: int)
    ensures TruncHalf(x) < 0 <==> x <= -2
    ensures TruncHalf(x) == 0 <==> -1 <= x <= 1
  {
  }

  // ---------------------------------------------------------------------------
  // Slicing with step 1
  // ---------------------------------------------------------------------------

  /** A slice bound after normalisation against a length n: negative bounds count
      from the end, and the result is clamped into [0, n]. */
  function NormIndex(i: int, n: nat): (r: nat)
    ensures r <= n
  {
    if i < 0 then (if i + n < 0 then 0 else i + n)
    else if i > n then n
    else i
  }

  /** Number of elements of `s[start:stop]` when |s| == n. */
  function SliceLength(n: nat, start: int, stop: int): (len: nat)
    ensures NormIndex(start, n) + len <= n
  {
    var lo := NormIndex(start, n);
    var hi := NormIndex(stop, n);
    if lo < hi then hi - lo else 0
  }

  /** Python's `s[start:stop]`. */
  function Slice<T>(s: seq<T>, start: int, stop: int): (r: seq<T>)
    ensures |r| == SliceLength(|s|, start, stop)
  {
    var lo := NormIndex(start, |s|);
    var hi := NormIndex(stop, |s|);
    if lo < hi then s[lo..hi] else []
  }

  /** The defining rule of a slice, without any clamping: position k of a sequence of
      length n is selected iff start' <= k < stop', where a negative bound b stands for
      n + b. */
  predicate InSlice(k: int, start: int, stop: int, n: nat) {
    var a := if start < 0 then start + n else start;
    var b := if stop < 0 then stop + n else stop;
    a <= k < b
  }

  /** Reference slice: the elements at the selected positions k, k+1, ..., |s|-1, in order. */
  function Selected<T>(s: seq<T>, start: int, stop: int, k: nat): seq<T>
    decreases |s| - k
  {
    if k >= |s| then []
    else (if InSlice(k, start, stop, |s|) then [s[k]] else []) + Selected(s, start, stop, k + 1)
  }

  /** Normalised bounds select exactly the positions the unclamped rule selects. */
  lemma NormIndexSelects(k: int, start: int, stop: int, n: nat)
    requires 0 <= k < n
    ensures InSlice(k, start, stop, n) <==> NormIndex(start, n) <= k < NormIndex(stop, n)
  {
  }

  lemma {:induction false} SelectedSuffix<T>(s: seq<T>, start: int, stop: int, k: nat)
    requires k <= |s|
    ensures var lo := if k < NormIndex(start, |s|) then NormIndex(start, |s|) else k;
            var hi := NormIndex(stop, |s|);
            Selected(s, start, stop, k) == if lo < hi then s[lo..hi] else []
    decreases |s| - k
  {
    if k < |s| {
      NormIndexSelects(k, start, stop, |s|);
      SelectedSuffix(s, start, stop, k + 1);
      var lo := NormIndex(start, |s|);
      var hi := NormIndex(stop, |s|);
      if lo <= k < hi {
        assert [s[k]] + s[k + 1..hi] == s[k..hi];
      }
    }
  }

  /** Python's clamped slice equals the reference selection of positions. */
  lemma SliceIsSelection<T>(s: seq<T>, start: int, stop: int)
    ensures Slice(s, start, stop) == Selected(s, start, stop, 0)
  {
    SelectedSuffix(s, start, stop, 0);
  }

  /** Elements of a slice keep their order and come from consecutive positions. */
  lemma SliceElements<T>(s: seq<T>, start: int, stop: int)
    ensures forall j :: 0 <= j < |Slice(s, start, stop)| ==>
              NormIndex(start, |s|) + j < |s| && Slice(s, start, stop)[j] == s[NormIndex(start, |s|) + j]
  {
    var lo := NormIndex(start, |s|);
    var hi := NormIndex(stop, |s|);
    var r := Slice(s, start, stop);
    if lo < hi {
      assert r == s[lo..hi];
      forall j | 0 <= j < |r|
        ensures lo + j < |s| && r[j] == s[lo + j]
      {
      }
    } else {
      assert |r| == 0;
    }
  }

  /** Length kept by the crop slice `s[d : n - d]` of a length-n axis. */
  function KeptLength(n: nat, d: int): nat {
    if d >= 0 then (if 2 * d <= n then n - 2 * d else 0)
    else if n <= -d then n
    else -d
  }

  lemma CropSliceLength(n: nat, d: int)
    ensures SliceLength(n, d, n - d) == KeptLength(n, d)
  {
  }

  /** `s[d : n - d]` keeps n - 2d entries for 0 <= d <= n/2, the last min(n, -d)
      entries for d < 0, nothing otherwise; never more than n. */
  lemma CropSlice<T>(s: seq<T>, d: int)
    ensures |Slice(s, d, |s| - d)| == KeptLength(|s|, d) <= |s|
    ensures d < 0 ==> Slice(s, d, |s| - d) == s[|s| - KeptLength(|s|, d)..]
    ensures 0 <= d && 2 * d <= |s| ==> Slice(s, d, |s| - d) == s[d..|s| - d]
  {
  }

  /** `s[d : n - d]` is the window of `KeptLength(n, d)` consecutive elements starting
      at the normalised bound of d. */
  lemma CropWindow1D<T>(s: seq<T>, d: int)
    ensures var kept := Slice(s, d, |s| - d);
            && |kept| == KeptLength(|s|, d)
            && NormIndex(d, |s|) + |kept| <= |s|
            && forall j :: 0 <= j < |kept| ==> kept[j] == s[NormIndex(d, |s|) + j]
  {
    CropSlice(s, d);
    SliceElements(s, d, |s| - d);
  }

  // ---------------------------------------------------------------------------
  // str.split(sep) and sep.join(parts)
  // ---------------------------------------------------------------------------

  /** Index of the first occurrence of c in s, or |s| when there is none. */
  function FirstIndexOf(s: string, c: char): (i: nat)
    ensures i <= |s|
    ensures forall j :: 0 <= j < i ==> s[j] != c
    ensures i < |s| ==> s[i] == c
  {
    if |s| == 0 then 0
    else if s[0] == c then 0
    else 1 + FirstIndexOf(s[1..], c)
  }

  /** Python's `s.split(sep)`: every separator ends a field, empty fields are kept. */
  function Split(s: string, sep: char): (parts: seq<string>)
    ensures |parts| >= 1
    decreases |s|
  {
    var i := FirstIndexOf(s, sep);
    if i == |s| then [s] else [s[..i]] + Split(s[i + 1..], sep)
  }

  /** A string around one of its positions. */
  lemma Around<T>(s: seq<T>, i: nat)
    requires i < |s|
    ensures s == s[..i] + [s[i]] + s[i + 1..]
  {
    assert s[i..] == [s[i]] + s[i + 1..];
    assert s == s[..i] + s[i..];
  }

  /** One step of `Split`: the first field ends at the first separator, if any. */
  lemma SplitStep(s: string, sep: char)
    ensures var i := FirstIndexOf(s, sep);
            && (i == |s| ==> sep !in s && Split(s, sep) == [s])
            && (i < |s| ==> && s == s[..i] + [sep] + s[i + 1..]
                            && sep !in s[..i]
                            && Split(s, sep) == [s[..i]] + Split(s[i + 1..], sep))
  {
    var i := FirstIndexOf(s, sep);
    if i < |s| {
      Around(s, i);
      assert sep !in s[..i];
    }
  }

  /** There is more than one field iff the separator occurs, and no field contains it. */
  lemma {:induction false} SplitFields(s: string, sep: char)
    ensures |Split(s, sep)| == 1 <==> sep !in s
    ensures forall k :: 0 <= k < |Split(s, sep)| ==> sep !in Split(s, sep)[k]
    decreases |s|
  {
    var i := FirstIndexOf(s, sep);
    SplitStep(s, sep);
    if i < |s| {
      SplitFields(s[i + 1..], sep);
    }
  }

  /** Python's `sep.join(parts)`. */
  function Join(parts: seq<string>, sep: char): string {
    if |parts| == 0 then ""
    else if |parts| == 1 then parts[0]
    else parts[0] + [sep] + Join(parts[1..], sep)
  }

  lemma JoinCons(head: string, rest: seq<string>, sep: char)
    requires |rest| >= 1
    ensures Join([head] + rest, sep) == head + [sep] + Join(rest, sep)
  {
    assert ([head] + rest)[1..] == rest;
  }

  /** Joining the fields of a split gives back the original string. */
  lemma {:induction false} SplitThenJoin(s: string, sep: char)
    ensures Join(Split(s, sep), sep) == s
    decreases |s|
  {
    var i := FirstIndexOf(s, sep);
    SplitStep(s, sep);
    if i < |s| {
      var tail := s[i + 1..];
      SplitThenJoin(tail, sep);
      JoinCons(s[..i], Split(tail, sep), sep);
    }
  }

  /** Splitting a join of separator-free fields gives back the fields. */
  lemma {:induction false} JoinThenSplit(parts: seq<string>, sep: char)
    requires |parts| >= 1
    requires forall k :: 0 <= k < |parts| ==> sep !in parts[k]
    ensures Split(Join(parts, sep), sep) == parts
    decreases |parts|
  {
    if |parts| > 1 {
      var rest := Join(parts[1..], sep);
      var s := parts[0] + [sep] + rest;
      var i := FirstIndexOf(s, sep);
      assert s[|parts[0]|] == sep;
      assert i == |parts[0]|;
      assert s[..i] == parts[0];
      assert s[i + 1..] == rest;
      JoinThenSplit(parts[1..], sep);
      assert parts == [parts[0]] + parts[1..];
    }
  }
}
