/**
 Model of the simple dataset loader: turn a list of image paths into two
 index-aligned sequences, the preprocessed images and their class labels.

 The image type is a parameter: a decoded image is whatever the abstract
 decoder returns for a path, and a preprocessor is any total function from
 image to image (the aspect-aware preprocessor is one such stage). Console
 progress lines are returned as a sequence of `Progress` events instead of
 being printed.
 */
module SimpleDatasetLoader {
  import opened PyOps

  /** `os.path.sep` on a POSIX system. */
  const PosixSep: char := '/'

  /** A loader with its fixed, ordered preprocessor list. */
  datatype Loader<!Img> = Loader(preprocessors: seq<Img -> Img>)

  /** One progress line, "[INFO] processed {processed}/{total}". */
  datatype Progress = Progress(processed: nat, total: nat)

  /** What `load` ends with: the two aligned sequences and the progress lines, or the
      `IndexError` raised for the path at `index`, after the progress lines printed
      for the items before it. */
  datatype LoadResult<Img> =
    | Loaded(data: seq<Img>, labels: seq<string>, progress: seq<Progress>)
    | IndexError(index: nat, progress: seq<Progress>)

  /** The constructor: no list means the empty list; a given list is kept as is. */
  function NewLoader<Img>(preprocessors: Option<seq<Img -> Img>> := None): (l: Loader<Img>)
    ensures preprocessors.None? ==> l.preprocessors == []
    ensures preprocessors.Some? ==> l.preprocessors == preprocessors.value
  {
    match preprocessors
    case None => Loader([])
    case Some(ps) => Loader(ps)
  }

  // ---------------------------------------------------------------------------
  // Labels
  // ---------------------------------------------------------------------------

  /** `imagePath.split(sep)[-2]`: the second-to-last field, or nothing (Python raises
      `IndexError`) when the path has a single field. Only the path is consulted. */
  function Label(path: string, sep: char): (r: Option<string>)
    ensures r.Some? <==> sep in path
    ensures r.Some? ==> sep !in r.value
  {
    var parts := Split(path, sep);
    SplitFields(path, sep);
    if |parts| >= 2 then Some(parts[|parts| - 2]) else None
  }

  /** A path laid out as `dir/.../<label>/<file>` has label `<label>`. */
  lemma LabelOfLayout(parts: seq<string>, sep: char)
    requires |parts| >= 2
    requires forall k :: 0 <= k < |parts| ==> sep !in parts[k]
    ensures Label(Join(parts, sep), sep) == Some(parts[|parts| - 2])
  {
    var path := Join(parts, sep);
    assert Split(path, sep) == parts by {
      JoinThenSplit(parts, sep);
    }
  }

  lemma LabelOfRosesExample()
    ensures Label("root/roses/001.jpg", PosixSep) == Some("roses")
  {
    var parts := ["root", "roses", "001.jpg"];
    assert Join(parts, '/') == "root/roses/001.jpg" by {
      assert Join(parts[2..], '/') == "001.jpg";
      assert Join(parts[1..], '/') == "roses/001.jpg";
    }
    LabelOfLayout(parts, '/');
  }

  // ---------------------------------------------------------------------------
  // Preprocessing
  // ---------------------------------------------------------------------------

  /** The preprocessors applied in list order, each to the previous one's output. */
  function ApplyAll<Img>(stages: seq<Img -> Img>, img: Img): Img
    decreases |stages|
  {
    if |stages| == 0 then img else ApplyAll(stages[1..], stages[0](img))
  }

  /** Running a list of stages is running its first part, then its second part on
      that output; the empty list leaves the image unchanged. */
  lemma {:induction false} ApplyAllAppend<Img>(s: seq<Img -> Img>, t: seq<Img -> Img>, img: Img)
    ensures ApplyAll([], img) == img
    ensures ApplyAll(s + t, img) == ApplyAll(t, ApplyAll(s, img))
    decreases |s|
  {
    if |s| > 0 {
      assert (s + t)[1..] == s[1..] + t;
      ApplyAllAppend(s[1..], t, s[0](img));
    } else {
      assert s + t == t;
    }
  }

  /** The last stage receives the output of all the stages before it. */
  lemma ApplyAllSnoc<Img>(s: seq<Img -> Img>, f: Img -> Img, img: Img)
    ensures ApplyAll(s + [f], img) == f(ApplyAll(s, img))
  {
    ApplyAllAppend(s, [f], img);
    assert ApplyAll([f], ApplyAll(s, img)) == ApplyAll([], f(ApplyAll(s, img)));
  }

  // ---------------------------------------------------------------------------
  // Progress
  // ---------------------------------------------------------------------------

  /** Whether a progress line follows the item with 1-based count k: the code tests
      `i > 0 and (i + 1) % verbose == 0` on the 0-based index i = k - 1. */
  predicate Reports(k: nat, verbose: int) {
    verbose > 0 && k >= 2 && k % verbose == 0
  }

  /** The progress lines printed after the first m of `total` items. */
  function ProgressUpTo(m: nat, total: nat, verbose: int): seq<Progress> {
    if m == 0 then []
    else ProgressUpTo(m - 1, total, verbose) + (if Reports(m, verbose) then [Progress(m, total)] else [])
  }

  /** A line is printed for count k of m iff k is reported; every line carries the
      total, and counts strictly increase. */
  lemma {:induction false} ProgressShape(m: nat, total: nat, verbose: int)
    ensures forall e :: e in ProgressUpTo(m, total, verbose) <==>
              e.total == total && 1 <= e.processed <= m && Reports(e.processed, verbose)
    ensures forall i, j :: 0 <= i < j < |ProgressUpTo(m, total, verbose)| ==>
              ProgressUpTo(m, total, verbose)[i].processed < ProgressUpTo(m, total, verbose)[j].processed
  {
    if m > 0 {
      ProgressShape(m - 1, total, verbose);
    }
  }

  lemma {:induction false} MulAtLeast(x: nat, v: nat)
    requires x >= 1
    ensures x * v >= v
  {
    if x > 1 {
      MulAtLeast(x - 1, v);
      assert x * v == (x - 1) * v + v;
    }
  }

  /** Euclidean division is determined by quotient and remainder. */
  lemma DivUnique(m: int, v: int, a: int, b: int)
    requires v >= 1 && 0 <= b < v && m == a * v + b
    ensures m / v == a
  {
    var q, r := m / v, m % v;
    assert m == q * v + r;
    if a > q {
      MulAtLeast(a - q, v);
      assert false;
    } else if a < q {
      MulAtLeast(q - a, v);
      assert false;
    }
  }

  lemma DivStep(m: nat, v: nat)
    requires m >= 1 && v >= 1
    ensures m / v == (m - 1) / v + (if m % v == 0 then 1 else 0)
  {
    var q, r := (m - 1) / v, (m - 1) % v;
    if r == v - 1 {
      DivUnique(m, v, q + 1, 0);
    } else {
      DivUnique(m, v, q, r + 1);
    }
  }

  /** How many lines `load` prints for m items: none unless verbose > 0, every count
      but the first when verbose is 1, and one per multiple of verbose otherwise. */
  lemma {:induction false} ProgressCount(m: nat, total: nat, verbose: int)
    ensures |ProgressUpTo(m, total, verbose)| ==
              if verbose <= 0 then 0
              else if verbose == 1 then (if m == 0 then 0 else m - 1)
              else m / verbose
  {
    if m > 0 {
      ProgressCount(m - 1, total, verbose);
      if verbose >= 2 {
        DivStep(m, verbose);
      }
    }
  }

  /** Ten paths with verbose = 3 print after items 3, 6 and 9 only. */
  lemma TenPathsEveryThree()
    ensures ProgressUpTo(10, 10, 3) == [Progress(3, 10), Progress(6, 10), Progress(9, 10)]
  {
    assert ProgressUpTo(2, 10, 3) == [];
    assert ProgressUpTo(5, 10, 3) == [Progress(3, 10)];
    assert ProgressUpTo(8, 10, 3) == [Progress(3, 10), Progress(6, 10)];
  }

  // ---------------------------------------------------------------------------
  // load
  // ---------------------------------------------------------------------------

  /** `load(imagePaths, verbose)`, with the image decoder as a parameter. Items are
      handled in path order: decode, take the label (failing with `IndexError` on a
      path without a separator), run the preprocessors, append, maybe report. */
  method Load<Img>(loader: Loader<Img>, imagePaths: seq<string>, decode: string -> Img,
                   verbose: int := -1, sep: char := PosixSep)
    returns (r: LoadResult<Img>)
    ensures r.Loaded? <==> forall i :: 0 <= i < |imagePaths| ==> sep in imagePaths[i]
    ensures r.Loaded? ==>
              && |r.data| == |imagePaths| && |r.labels| == |imagePaths|
              && (forall i :: 0 <= i < |imagePaths| ==>
                    r.data[i] == ApplyAll(loader.preprocessors, decode(imagePaths[i])))
              && (forall i :: 0 <= i < |imagePaths| ==>
                    Label(imagePaths[i], sep) == Some(r.labels[i]))
              && r.progress == ProgressUpTo(|imagePaths|, |imagePaths|, verbose)
    ensures r.IndexError? ==>
              && r.index < |imagePaths|
              && sep !in imagePaths[r.index]
              && (forall i :: 0 <= i < r.index ==> sep in imagePaths[i])
              && r.progress == ProgressUpTo(r.index, |imagePaths|, verbose)
    ensures |imagePaths| == 0 ==> r == Loaded([], [], [])
  {
    var data: seq<Img> := [];
    var labels: seq<string> := [];
    var progress: seq<Progress> := [];
    var i := 0;
    while i < |imagePaths|
      invariant 0 <= i <= |imagePaths|
      invariant |data| == i && |labels| == i
      invariant forall j :: 0 <= j < i ==> data[j] == ApplyAll(loader.preprocessors, decode(imagePaths[j]))
      invariant forall j :: 0 <= j < i ==> Label(imagePaths[j], sep) == Some(labels[j])
      invariant progress == ProgressUpTo(i, |imagePaths|, verbose)
    {
      var image := decode(imagePaths[i]);
      var classLabel := Label(imagePaths[i], sep);
      if classLabel.None? {
        return IndexError(i, progress);
      }
      var k := 0;
      while k < |loader.preprocessors|
        invariant 0 <= k <= |loader.preprocessors|
        invariant image == ApplyAll(loader.preprocessors[..k], decode(imagePaths[i]))
      {
        ApplyAllSnoc(loader.preprocessors[..k], loader.preprocessors[k], decode(imagePaths[i]));
        assert loader.preprocessors[..k + 1] == loader.preprocessors[..k] + [loader.preprocessors[k]];
        image := loader.preprocessors[k](image);
        k := k + 1;
      }
      assert loader.preprocessors[..k] == loader.preprocessors;
      data := data + [image];
      labels := labels + [classLabel.value];
      if verbose > 0 && i > 0 && (i + 1) % verbose == 0 {
        progress := progress + [Progress(i + 1, |imagePaths|)];
      }
      i := i + 1;
    }
    return Loaded(data, labels, progress);
  }
}
