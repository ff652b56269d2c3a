/** src/utils/parallel.cpp: how many scanner threads the C++ renderer starts and which
    rows each of them scans. The threads themselves are not modelled; each scanner is
    a record, and `scan` (src/scene.cpp) is applied to them one after the other. */
module ParallelCpp {
  import opened Wrappers
  import opened Partition

  /** A `Scanner`: the rows `[y0, y1)` of a `width` x `height` image, with
      `pixelSamples` samples per pixel. */
  datatype Scanner = Scanner(id: nat, width: nat, height: nat, y0: nat, y1: nat, pixelSamples: nat)

  /** `getNumThreads` as written: one thread when the processor count is unknown (0),
      and otherwise one fewer than the processor count, which is 0 on a machine that
      reports a single processor. */
  function GetNumThreadsAsWritten(processorCount: nat): (n: int)
    ensures processorCount == 0 ==> n == 1
    ensures processorCount > 0 ==> n + 1 == processorCount
  {
    if processorCount == 0 then 1 else processorCount - 1
  }

  /** The rows `launchThreads` assigns: `n` scanners, the first with
      `height / n + height % n` rows and every later one with `height / n`. `None`
      stands for the division by zero when there are no threads. */
  function LaunchAsWritten(width: nat, height: nat, pixelSamples: nat, numThreads: int): (r: Option<seq<Scanner>>)
    ensures r.None? <==> numThreads <= 0
    ensures r.Some? ==> r.value == Scanners(width, height, pixelSamples, numThreads)
  {
    if numThreads <= 0 then None else Some(Scanners(width, height, pixelSamples, numThreads))
  }

  /** On a machine that reports one processor the C++ renderer divides by zero. */
  lemma AsWrittenOneProcessorFails(width: nat, height: nat, pixelSamples: nat)
    ensures GetNumThreadsAsWritten(1) == 0
    ensures LaunchAsWritten(width, height, pixelSamples, GetNumThreadsAsWritten(1)).None?
  {}

  /** `getNumThreads` with the evident intent, leaving one processor free but always
      starting at least one thread. */
  function GetNumThreads(processorCount: nat): (n: nat)
    ensures n >= 1
    ensures processorCount >= 2 ==> n + 1 == processorCount
    ensures processorCount >= 2 ==> n == GetNumThreadsAsWritten(processorCount)
  {
    if processorCount <= 1 then 1 else processorCount - 1
  }

  /** With the corrected count, `launchThreads` always has scanners to hand out. */
  lemma LaunchAlwaysSucceeds(width: nat, height: nat, pixelSamples: nat, processorCount: nat)
    ensures LaunchAsWritten(width, height, pixelSamples, GetNumThreads(processorCount)).Some?
    ensures |LaunchAsWritten(width, height, pixelSamples, GetNumThreads(processorCount)).value| == GetNumThreads(processorCount)
  {}

  /** The first row of scanner `i`: the first scanner takes the remainder too. */
  function FirstRow(height: nat, n: nat, i: nat): nat
    requires n > 0
  {
    if i == 0 then 0 else i * (height / n) + height % n
  }

  /** The scanners of the loop in `launchThreads`, for `n` threads. */
  function Scanners(width: nat, height: nat, pixelSamples: nat, n: nat): (s: seq<Scanner>)
    requires n > 0
    ensures |s| == n
  {
    seq(n, i requires 0 <= i < n => Scanner(i, width, height, FirstRow(height, n, i), FirstRow(height, n, i + 1), pixelSamples))
  }

  lemma FirstRowStep(height: nat, n: nat, i: nat)
    requires n > 0
    ensures FirstRow(height, n, i + 1) == FirstRow(height, n, i) + height / n + (if i == 0 then height % n else 0)
  {
    assert (i + 1) * (height / n) == i * (height / n) + height / n;
  }

  /** The last scanner ends at the bottom of the image. */
  lemma FirstRowLast(height: nat, n: nat)
    requires n > 0
    ensures FirstRow(height, n, n) == height
  {
    var q, r := height / n, height % n;
    assert height == q * n + r;
    assert n * q == q * n;
  }

  /** The loop of `launchThreads`: scanner `i` starts where scanner `i - 1` ended, with
      `step + rem` rows for the first and `step` rows for the rest (`rem` is reset to
      0 after the first). The thread count must be positive. */
  method LaunchThreads(width: nat, height: nat, pixelSamples: nat, numThreads: nat) returns (scanners: seq<Scanner>)
    requires numThreads >= 1
    ensures scanners == Scanners(width, height, pixelSamples, numThreads)
  {
    var y0 := 0;
    var step := height / numThreads;
    var rem := height % numThreads;
    scanners := [];
    var i := 0;
    while i < numThreads
      invariant 0 <= i <= numThreads && |scanners| == i
      invariant y0 == FirstRow(height, numThreads, i)
      invariant rem == if i == 0 then height % numThreads else 0
      invariant forall k :: 0 <= k < i ==> scanners[k] == Scanners(width, height, pixelSamples, numThreads)[k]
    {
      FirstRowStep(height, numThreads, i);
      var scanner := Scanner(i, width, height, y0, y0 + step + rem, pixelSamples);
      scanners := scanners + [scanner];
      y0 := y0 + step + rem;
      rem := 0;
      i := i + 1;
    }
  }

  function Spans(scanners: seq<Scanner>): (s: seq<Span>)
    ensures |s| == |scanners| && forall k :: 0 <= k < |scanners| ==> s[k] == Span(scanners[k].y0, scanners[k].y1)
  {
    seq(|scanners|, k requires 0 <= k < |scanners| => Span(scanners[k].y0, scanners[k].y1))
  }

  /** The scanners tile the rows `[0, height)`: scanner `i + 1` starts where scanner
      `i` ends, the first starts at row 0 and the last ends at `height`, so their row
      counts add up to the image height. */
  lemma ScannersTile(width: nat, height: nat, pixelSamples: nat, n: nat)
    requires n > 0
    ensures Tiles(Spans(Scanners(width, height, pixelSamples, n)), height)
    ensures TotalLength(Spans(Scanners(width, height, pixelSamples, n))) == height
  {
    var spans := Spans(Scanners(width, height, pixelSamples, n));
    ScannerSpans(width, height, pixelSamples, n);
    FirstRowsOrdered(height, n);
    FirstRowLast(height, n);
    assert Tiles(spans, height);
    TilesLength(spans, height);
  }

  lemma ScannerSpans(width: nat, height: nat, pixelSamples: nat, n: nat)
    requires n > 0
    ensures forall k :: 0 <= k < n ==> Spans(Scanners(width, height, pixelSamples, n))[k] == Span(FirstRow(height, n, k), FirstRow(height, n, k + 1))
  {}

  lemma FirstRowsOrdered(height: nat, n: nat)
    requires n > 0
    ensures forall i :: 0 <= i < n ==> FirstRow(height, n, i) <= FirstRow(height, n, i + 1)
  {
    forall i | 0 <= i < n
      ensures FirstRow(height, n, i) <= FirstRow(height, n, i + 1)
    {
      FirstRowStep(height, n, i);
    }
  }

  /** The first scanner scans `height / n + height % n` rows and every other one
      `height / n`; all carry the same width, height and sample count, and scanner `i`
      has id `i`. */
  lemma ScannersShape(width: nat, height: nat, pixelSamples: nat, n: nat)
    requires n > 0
    ensures Scanners(width, height, pixelSamples, n)[0].y1 == height / n + height % n
    ensures forall i :: 1 <= i < n ==>
      Scanners(width, height, pixelSamples, n)[i].y1 == Scanners(width, height, pixelSamples, n)[i].y0 + height / n
    ensures forall i :: 0 <= i < n ==>
      var s := Scanners(width, height, pixelSamples, n)[i];
      s.id == i && s.width == width && s.height == height && s.pixelSamples == pixelSamples
  {
    var scanners := Scanners(width, height, pixelSamples, n);
    forall i | 1 <= i < n
      ensures scanners[i].y1 == scanners[i].y0 + height / n
    {
      FirstRowStep(height, n, i);
    }
  }
}
