/**
 The threshold scan of the waveform converters: one pass over a waveform that records where it goes
 above and below a threshold, the classification of the pulses found, and the choice of the highest.
 */
module ThresholdScan {
  import opened MachineInts

  // ---- The scan -----------------------------------------------------------------------------

  /** The pending start, -1 for none, and the crossings recorded. */
  datatype Scan = Scan(first: int, crossings: seq<(int, int)>)

  /** The scan's state after the first `n` samples. */
  function ScanTo(w: seq<real>, thr: real, n: nat): Scan
    requires 1 <= n <= |w|
  {
    if n == 1 then Scan(if w[0] > thr then 0 else -1, [])
    else
      var s := ScanTo(w, thr, n - 1);
      var ii := n - 1;
      if w[ii] > thr && w[ii - 1] < thr then s.(first := ii)
      else if w[ii] < thr && w[ii - 1] > thr && s.first != -1 then Scan(-1, s.crossings + [(s.first, ii)])
      else s
  }

  /** The crossings of a waveform; one still above the threshold at its end is closed there. */
  function Crossings(w: seq<real>, thr: real): seq<(int, int)>
    requires |w| > 0
  {
    var s := ScanTo(w, thr, |w|);
    if w[|w| - 1] > thr then s.crossings + [(s.first, |w|)] else s.crossings
  }

  method FindCrossings(w: seq<real>, thr: real) returns (crossings: seq<(int, int)>)
    requires |w| > 0
    ensures crossings == Crossings(w, thr)
  {
    var size := |w|;
    crossings := [];
    var first, second := -1, -1;
    if w[0] > thr {
      first := 0;
    }
    for ii := 1 to size
      invariant Scan(first, crossings) == ScanTo(w, thr, ii)
    {
      if w[ii] > thr && w[ii - 1] < thr {
        first := ii;
      } else if w[ii] < thr && w[ii - 1] > thr && first != -1 {
        second := ii;
        crossings := crossings + [(first, second)];
        first, second := -1, -1;
      }
    }
    if w[size - 1] > thr {
      second := size;
      crossings := crossings + [(first, second)];
    }
  }

  // ---- Runs above the threshold -------------------------------------------------------------

  /** Samples `a` to `b - 1` form a maximal run above the threshold. */
  ghost predicate IsRun(w: seq<real>, thr: real, a: int, b: int) {
    && 0 <= a < b <= |w|
    && (forall i :: a <= i < b ==> w[i] > thr)
    && (a == 0 || w[a - 1] <= thr) && (b == |w| || w[b] <= thr)
  }

  /** Somewhere a sample equal to the threshold stands next to one above it. */
  ghost predicate Touches(w: seq<real>, thr: real) {
    exists i :: 1 <= i < |w| && TouchesAt(w, thr, i)
  }

  predicate TouchesAt(w: seq<real>, thr: real, i: int)
    requires 1 <= i < |w|
  {
    (w[i - 1] > thr && w[i] == thr) || (w[i - 1] == thr && w[i] > thr)
  }

  /** The crossings are the maximal runs, all of them and nothing else. */
  ghost predicate AreTheRuns(w: seq<real>, thr: real, crossings: seq<(int, int)>) {
    forall a, b :: (a, b) in crossings <==> IsRun(w, thr, a, b)
  }

  /** What a waveform that nowhere touches the threshold keeps true along the scan. */
  ghost predicate Tracks(w: seq<real>, thr: real, n: nat, s: Scan)
    requires 1 <= n <= |w|
  {
    && (if w[n - 1] > thr
        then 0 <= s.first < n && (forall i :: s.first <= i < n ==> w[i] > thr)
             && (s.first == 0 || w[s.first - 1] <= thr)
        else s.first == -1)
    && (forall a, b :: (a, b) in s.crossings <==> IsRun(w, thr, a, b) && b < n)
  }

  lemma {:induction false} ScanTracks(w: seq<real>, thr: real, n: nat)
    requires 1 <= n <= |w| && !Touches(w, thr)
    ensures Tracks(w, thr, n, ScanTo(w, thr, n))
  {
    if n > 1 {
      ScanTracks(w, thr, n - 1);
      TrackStep(w, thr, n);
    } else {
      assert forall a, b :: !(IsRun(w, thr, a, b) && b < 1);
    }
  }

  lemma TrackStep(w: seq<real>, thr: real, n: nat)
    requires 2 <= n <= |w| && !Touches(w, thr)
    requires Tracks(w, thr, n - 1, ScanTo(w, thr, n - 1))
    ensures Tracks(w, thr, n, ScanTo(w, thr, n))
  {
    var s, s' := ScanTo(w, thr, n - 1), ScanTo(w, thr, n);
    var ii := n - 1;
    assert !TouchesAt(w, thr, ii);
    forall a, b
      ensures (a, b) in s'.crossings <==> IsRun(w, thr, a, b) && b < n
    {
      if b == ii {
        RunEndingHere(w, thr, ii, s, a);
      }
    }
  }

  /** A run that ends at `ii` is exactly the pending one, when the waveform falls there. */
  lemma RunEndingHere(w: seq<real>, thr: real, ii: nat, s: Scan, a: int)
    requires 1 <= ii < |w| && Tracks(w, thr, ii, s) && !TouchesAt(w, thr, ii)
    ensures IsRun(w, thr, a, ii) <==> w[ii] < thr && w[ii - 1] > thr && a == s.first
    ensures (a, ii) !in s.crossings
  {
    if IsRun(w, thr, a, ii) {
      assert w[ii - 1] > thr;
    }
  }

  /** Every crossing recorded inside the waveform starts at a strict rise or at 0, and ends at a strict fall. */
  lemma {:induction false} CrossingEdges(w: seq<real>, thr: real, n: nat)
    requires 1 <= n <= |w|
    ensures var s := ScanTo(w, thr, n);
            && (s.first == -1 || (0 <= s.first < n && w[s.first] > thr && (s.first == 0 || w[s.first - 1] < thr)))
            && forall c :: c in s.crossings ==>
                 0 <= c.0 < c.1 < n && w[c.0] > thr && (c.0 == 0 || w[c.0 - 1] < thr) && w[c.1] < thr
  {
    if n == 1 {
    } else {
      CrossingEdges(w, thr, n - 1);
    }
  }

  /** Where a run above the threshold that includes `i` ends, and where it starts. */
  function RunEnd(w: seq<real>, thr: real, i: nat): (b: nat)
    requires i < |w| && w[i] > thr
    ensures i < b <= |w| && (forall j :: i <= j < b ==> w[j] > thr) && (b == |w| || w[b] <= thr)
    decreases |w| - i
  {
    if i + 1 < |w| && w[i + 1] > thr then RunEnd(w, thr, i + 1) else i + 1
  }

  function RunStart(w: seq<real>, thr: real, i: nat): (a: nat)
    requires i < |w| && w[i] > thr
    ensures a <= i && (forall j :: a <= j <= i ==> w[j] > thr) && (a == 0 || w[a - 1] <= thr)
  {
    if i > 0 && w[i - 1] > thr then RunStart(w, thr, i - 1) else i
  }

  /** Where the waveform touches the threshold, a run is not recorded. */
  lemma TouchMissesRun(w: seq<real>, thr: real, i: nat)
    requires 1 <= i < |w| && TouchesAt(w, thr, i)
    ensures !AreTheRuns(w, thr, Crossings(w, thr))
  {
    CrossingEdges(w, thr, |w|);
    if w[i] > thr {
      var b := RunEnd(w, thr, i);
      assert IsRun(w, thr, i, b);
      assert (i, b) !in Crossings(w, thr);
    } else {
      var a := RunStart(w, thr, i - 1);
      assert IsRun(w, thr, a, i);
      assert (a, i) !in Crossings(w, thr);
    }
  }

  /**
   The crossings found are exactly the maximal runs of samples above the threshold if and only if no
   sample equal to the threshold stands next to one above it.
   */
  lemma CrossingsAreRuns(w: seq<real>, thr: real)
    requires |w| > 0
    ensures AreTheRuns(w, thr, Crossings(w, thr)) <==> !Touches(w, thr)
  {
    hide TouchesAt, Crossings, AreTheRuns;
    if Touches(w, thr) {
      var i :| 1 <= i < |w| && TouchesAt(w, thr, i);
      TouchMissesRun(w, thr, i);
    } else {
      RunsFound(w, thr);
    }
  }

  lemma RunsFound(w: seq<real>, thr: real)
    requires |w| > 0 && !Touches(w, thr)
    ensures AreTheRuns(w, thr, Crossings(w, thr))
  {
    hide Touches, ScanTo;
    ScanTracks(w, thr, |w|);
    var s := ScanTo(w, thr, |w|);
    forall a, b
      ensures (a, b) in Crossings(w, thr) <==> IsRun(w, thr, a, b)
    {
      if b == |w| && IsRun(w, thr, a, b) {
        assert w[|w| - 1] > thr;
      }
    }
  }

  /** A run whose edges touch the threshold, concretely: both edges of this pulse are lost. */
  lemma TouchingExample()
    ensures Crossings([0.0, 1.0, 2.0, 1.0, 0.0], 1.0) == [] && IsRun([0.0, 1.0, 2.0, 1.0, 0.0], 1.0, 2, 3)
  {
    var w := [0.0, 1.0, 2.0, 1.0, 0.0];
    assert ScanTo(w, 1.0, 1) == Scan(-1, []);
    assert ScanTo(w, 1.0, 2) == Scan(-1, []);
    assert ScanTo(w, 1.0, 3) == Scan(-1, []);
    assert ScanTo(w, 1.0, 4) == Scan(-1, []);
    assert ScanTo(w, 1.0, 5) == Scan(-1, []);
  }

  // ---- Time over threshold ------------------------------------------------------------------

  predicate Ordered(crossings: seq<(int, int)>) {
    forall i :: 0 < i < |crossings| ==> crossings[i - 1].1 <= crossings[i].0
  }

  function DeltaSum(crossings: seq<(int, int)>): int {
    if crossings == [] then 0
    else
      var c := crossings[|crossings| - 1];
      DeltaSum(crossings[..|crossings| - 1]) + (c.1 - c.0)
  }

  function CountAbove(w: seq<real>, thr: real, n: nat): nat
    requires n <= |w|
  {
    if n == 0 then 0 else CountAbove(w, thr, n - 1) + (if w[n - 1] > thr then 1 else 0)
  }

  lemma {:induction false} ScanApart(w: seq<real>, thr: real, n: nat)
    requires 1 <= n <= |w|
    ensures var s := ScanTo(w, thr, n);
            && s.first >= -1
            && (forall j, k :: 0 <= j < k < |s.crossings| ==> s.crossings[j].1 <= s.crossings[k].0)
            && (forall k :: 0 <= k < |s.crossings| ==>
                s.crossings[k].1 < n && (s.first >= 0 ==> s.crossings[k].1 <= s.first))
  {
    if n == 1 {
    } else {
      ScanApart(w, thr, n - 1);
    }
  }

  lemma {:induction false} ScanCounts(w: seq<real>, thr: real, n: nat)
    requires 1 <= n <= |w| && !Touches(w, thr)
    ensures var s := ScanTo(w, thr, n);
            DeltaSum(s.crossings) + (if s.first >= 0 then n - s.first else 0) == CountAbove(w, thr, n)
    ensures ScanTo(w, thr, n).first >= 0 <==> w[n - 1] > thr
  {
    hide Touches, Tracks, ScanTo, DeltaSum, CountAbove, TouchesAt;
    ScanTracks(w, thr, n);
    FirstTracks(w, thr, n, ScanTo(w, thr, n));
    if n == 1 {
      CountFirst(w, thr);
    } else {
      ScanCounts(w, thr, n - 1);
      var s := ScanTo(w, thr, n - 1);
      NowhereTouches(w, thr, n - 1);
      ScanMoves(w, thr, n);
      DeltaSumPush(s.crossings, (s.first, n - 1));
    }
  }

  lemma CountFirst(w: seq<real>, thr: real)
    requires |w| > 0
    ensures CountAbove(w, thr, 1) == (if w[0] > thr then 1 else 0)
    ensures DeltaSum([]) == 0 && ScanTo(w, thr, 1) == Scan(if w[0] > thr then 0 else -1, [])
  {
    assert CountAbove(w, thr, 0) == 0;
  }

  /** One step of the scan and of the count, where the waveform does not touch the threshold. */
  lemma ScanMoves(w: seq<real>, thr: real, n: nat)
    requires 2 <= n <= |w| && !TouchesAt(w, thr, n - 1)
    ensures var ii := n - 1;
            var s, s' := ScanTo(w, thr, ii), ScanTo(w, thr, n);
            if w[ii] > thr && w[ii - 1] <= thr then s' == s.(first := ii)
            else if w[ii] <= thr && w[ii - 1] > thr && s.first != -1 then s' == Scan(-1, s.crossings + [(s.first, ii)])
            else s' == s
    ensures CountAbove(w, thr, n) == CountAbove(w, thr, n - 1) + (if w[n - 1] > thr then 1 else 0)
  {
  }

  lemma DeltaSumPush(crossings: seq<(int, int)>, c: (int, int))
    ensures DeltaSum(crossings + [c]) == DeltaSum(crossings) + c.1 - c.0
  {
    assert (crossings + [c])[..|crossings|] == crossings;
  }

  lemma FirstTracks(w: seq<real>, thr: real, n: nat, s: Scan)
    requires 1 <= n <= |w| && Tracks(w, thr, n, s)
    ensures if w[n - 1] > thr then s.first >= 0 else s.first == -1
  {
  }

  lemma NowhereTouches(w: seq<real>, thr: real, i: nat)
    requires 1 <= i < |w| && !Touches(w, thr)
    ensures !TouchesAt(w, thr, i)
  {
  }

  /**
   Without touching, the crossings are in order and disjoint, and their lengths add up to the number of
   samples above the threshold.
   */
  lemma DeltasSumToSamples(w: seq<real>, thr: real)
    requires |w| > 0 && !Touches(w, thr)
    ensures Ordered(Crossings(w, thr)) && DeltaSum(Crossings(w, thr)) == CountAbove(w, thr, |w|)
  {
    hide Touches, ScanTo;
    ScanCounts(w, thr, |w|);
    ScanApart(w, thr, |w|);
    var s := ScanTo(w, thr, |w|);
    assert (s.crossings + [(s.first, |w|)])[..|s.crossings|] == s.crossings;
  }

  /**
   On every waveform, touching or not, every crossing has a positive length and includes a sample above
   the threshold. Its start is -1 where a final run was entered from the threshold.
   */
  lemma DeltasPositive(w: seq<real>, thr: real)
    requires |w| > 0
    ensures forall c :: c in Crossings(w, thr) ==> -1 <= c.0 < c.1 <= |w| && c.0 < |w| && (c.0 < 0 ==> c.1 == |w|)
    ensures forall c :: c in Crossings(w, thr) ==> w[if c.0 < 0 then |w| - 1 else c.0] > thr
  {
    hide ScanTo;
    CrossingEdges(w, thr, |w|);
  }

  // ---- Classification -----------------------------------------------------------------------

  /** Pulse kinds, by length and by reaching an end of the waveform; `dT` nanoseconds per sample. */
  predicate IsSignal(c: (int, int), signalTot: real, dT: real)
    requires dT > 0.0
  {
    (c.1 - c.0) as real > signalTot / dT
  }

  predicate IsSingle(c: (int, int), size: int, signalTot: real, minTot: real, dT: real)
    requires dT > 0.0
  {
    !IsSignal(c, signalTot, dT) && ((c.1 - c.0) as real > minTot / dT || c.1 == size || c.0 == 0)
  }

  predicate IsVetoSingle(c: (int, int), size: int, minTot: real, dT: real)
    requires dT > 0.0
  {
    (c.1 - c.0) as real > minTot / dT || c.1 == size || c.0 == 0
  }

  /**
   The kinds by the nanoseconds a pulse lasts: a signal lasts longer than the time for signals; a single one
   does not, but longer than the least time, unless it starts at the first sample or lasts to the end.
   */
  lemma PulseKinds(c: (int, int), size: int, signalTot: real, minTot: real, dT: real)
    requires dT > 0.0
    ensures var lasts := (c.1 - c.0) as real * dT;
            && (IsSignal(c, signalTot, dT) <==> lasts > signalTot)
            && (IsSingle(c, size, signalTot, minTot, dT)
                <==> lasts <= signalTot && (lasts > minTot || c.1 == size || c.0 == 0))
            && (IsVetoSingle(c, size, minTot, dT) <==> lasts > minTot || c.1 == size || c.0 == 0)
  {
    Longer((c.1 - c.0) as real, signalTot, dT);
    Longer((c.1 - c.0) as real, minTot, dT);
  }

  lemma Longer(samples: real, time: real, dT: real)
    requires dT > 0.0
    ensures samples > time / dT <==> samples * dT > time
  {
    var q := time / dT;
    assert q * dT == time;
    if samples > q {
      assert (samples - q) * dT > 0.0;
    } else {
      assert (q - samples) * dT >= 0.0;
    }
  }

  /** The indexes that satisfy a test, in increasing order. */
  ghost predicate Selects(indexes: seq<nat>, n: nat, test: nat -> bool) {
    && (forall i :: 0 <= i < |indexes| ==> indexes[i] < n && test(indexes[i]))
    && (forall i, j :: 0 <= i < j < |indexes| ==> indexes[i] < indexes[j])
    && (forall k: nat :: k < n && test(k) ==> k in indexes)
  }

  /**
   The pulses of a waveform, sorted into signals and single pulses. The error branch for a negative
   length is never taken.
   */
  method ClassifyPulses(w: seq<real>, thr: real, signalTot: real, minTot: real, dT: real)
    returns (crossings: seq<(int, int)>, signals: seq<nat>, singles: seq<nat>, negative: bool)
    requires |w| > 0 && dT > 0.0
    ensures crossings == Crossings(w, thr) && !negative
    ensures Selects(signals, |crossings|, (k: nat) => k < |crossings| && IsSignal(crossings[k], signalTot, dT))
    ensures Selects(singles, |crossings|,
                    (k: nat) => k < |crossings| && IsSingle(crossings[k], |w|, signalTot, minTot, dT))
  {
    hide Crossings;
    crossings := FindCrossings(w, thr);
    DeltasPositive(w, thr);
    negative := false;
    var deltas := [];
    for itime := 0 to |crossings|
      invariant |deltas| == itime && forall k :: 0 <= k < itime ==> deltas[k] == crossings[k].1 - crossings[k].0
    {
      deltas := deltas + [crossings[itime].1 - crossings[itime].0];
    }
    signals, singles := [], [];
    for itime := 0 to |crossings|
      invariant !negative
      invariant Selects(signals, itime, (k: nat) => k < |crossings| && IsSignal(crossings[k], signalTot, dT))
      invariant Selects(singles, itime,
                        (k: nat) => k < |crossings| && IsSingle(crossings[k], |w|, signalTot, minTot, dT))
    {
      assert crossings[itime] in crossings;
      if deltas[itime] < 0 {
        negative := true;
      } else if deltas[itime] as real > signalTot / dT {
        signals := signals + [itime];
      } else if deltas[itime] as real > minTot / dT || crossings[itime].1 == |w| || crossings[itime].0 == 0 {
        singles := singles + [itime];
      }
    }
  }

  // ---- The highest pulse --------------------------------------------------------------------

  /** The maximum of `x` from `first` to `last`, both included, at the first place it is reached. */
  ghost predicate IsMaximum(x: seq<real>, first: nat, last: nat, max: real, tMax: nat)
    requires first <= last < |x|
  {
    && first <= tMax <= last && x[tMax] == max
    && (forall i :: first <= i <= last ==> x[i] <= max)
    && (forall i :: first <= i < tMax ==> x[i] < max)
  }

  method GetMaximum(x: seq<real>, first: nat, last: nat) returns (max: real, tMax: nat)
    requires first <= last < |x|
    ensures IsMaximum(x, first, last, max, tMax)
  {
    max := x[first];
    tMax := first;
    for ii := first to last + 1
      invariant first <= tMax <= last && x[tMax] == max
      invariant tMax == first || tMax < ii
      invariant forall i :: first <= i < ii ==> x[i] <= max
      invariant forall i :: first <= i < tMax ==> x[i] < max
    {
      if x[ii] > max {
        tMax := ii;
        max := x[ii];
      }
    }
  }

  /** The sample range of a crossing, both ends included and kept inside the waveform. */
  function Window(c: (int, int), size: nat): (r: (nat, nat))
    requires size > 0 && -1 <= c.0 < size && c.0 < c.1
    ensures r.0 <= r.1 < size
  {
    var lo := if c.0 < 0 then 0 else c.0;
    var hi := if c.1 >= size then size - 1 else c.1;
    (lo, hi)
  }

  ghost predicate IsPeakOf(w: seq<real>, first: nat, last: nat, v: real)
    requires first <= last < |w|
  {
    exists t :: IsMaximum(w, first, last, v, t)
  }

  /**
   The highest sample of a crossing's window. For a crossing that starts nowhere the window is the whole
   waveform.
   */
  ghost predicate IsPeak(w: seq<real>, c: (int, int), v: real)
    requires |w| > 0 && -1 <= c.0 < |w| && c.0 < c.1
  {
    IsPeakOf(w, Window(c, |w|).0, Window(c, |w|).1, v)
  }

  /** The pulses selected before place `p` all have a peak below `v`. */
  ghost predicate FirstHighest(w: seq<real>, crossings: seq<(int, int)>, singles: seq<nat>, v: real, p: int)
    requires |w| > 0
    requires forall c :: c in crossings ==> -1 <= c.0 < |w| && c.0 < c.1
    requires forall i :: 0 <= i < |singles| ==> singles[i] < |crossings|
  {
    0 <= p < |singles| && forall i, u :: 0 <= i < p && IsPeak(w, crossings[singles[i]], u) ==> u < v
  }

  const NO_AMPLITUDE := -9999.0

  /** Some selected pulse has a peak above `v`. */
  ghost predicate SomePeakAbove(w: seq<real>, crossings: seq<(int, int)>, singles: seq<nat>, v: real)
    requires |w| > 0
    requires forall c :: c in crossings ==> -1 <= c.0 < |w| && c.0 < c.1
    requires forall i :: 0 <= i < |singles| ==> singles[i] < |crossings|
  {
    exists i, u :: 0 <= i < |singles| && IsPeak(w, crossings[singles[i]], u) && u > v
  }

  /**
   The highest among the selected pulses: the first whose peak is greatest, and that peak. The choice is
   left unset exactly where no peak exceeds the initial amplitude.
   */
  method HighestPulse(w: seq<real>, crossings: seq<(int, int)>, singles: seq<nat>)
    returns (amplitude: real, chosen: Option<nat>)
    requires |w| > 0
    requires forall c :: c in crossings ==> -1 <= c.0 < |w| && c.0 < c.1
    requires forall i :: 0 <= i < |singles| ==> singles[i] < |crossings|
    ensures chosen.Some? <==> SomePeakAbove(w, crossings, singles, -9999.0)
    ensures chosen == None ==> amplitude == -9999.0
    ensures chosen.Some? ==>
              && chosen.value in singles && chosen.value < |crossings|
              && amplitude > -9999.0 && IsPeak(w, crossings[chosen.value], amplitude)
    ensures chosen.Some? ==> exists p :: FirstHighest(w, crossings, singles, amplitude, p) && singles[p] == chosen.value
    ensures forall i, v :: 0 <= i < |singles| && IsPeak(w, crossings[singles[i]], v) ==> v <= amplitude
  {
    ghost var p := -1;
    amplitude, chosen := NO_AMPLITUDE, None;
    for iphe := 0 to |singles|
      invariant chosen == None ==> amplitude == NO_AMPLITUDE
      invariant chosen.Some? ==>
                  && chosen.value in singles && chosen.value < |crossings|
                  && amplitude > NO_AMPLITUDE && IsPeak(w, crossings[chosen.value], amplitude)
      invariant chosen.Some? ==> FirstHighest(w, crossings, singles, amplitude, p) && singles[p] == chosen.value
      invariant forall i, v :: 0 <= i < iphe && IsPeak(w, crossings[singles[i]], v) ==> v <= amplitude
    {
      var idx := singles[iphe];
      assert crossings[idx] in crossings;
      var window := Window(crossings[idx], |w|);
      var max, tMax := GetMaximum(w, window.0, window.1);
      PeakIsUnique(w, crossings[idx], max, tMax);
      if amplitude < max {
        amplitude := max;
        chosen := Some(idx);
        p := iphe;
      }
    }
  }

  lemma PeakIsUnique(w: seq<real>, c: (int, int), v: real, t: nat)
    requires |w| > 0 && -1 <= c.0 < |w| && c.0 < c.1
    requires IsMaximum(w, Window(c, |w|).0, Window(c, |w|).1, v, t)
    ensures IsPeak(w, c, v) && forall u :: IsPeak(w, c, u) ==> u == v
  {
  }

  /** Where a pulse starts: for a crossing that starts nowhere, where the waveform's last run does. */
  function PulseStart(w: seq<real>, thr: real, c: (int, int)): (start: nat)
    requires |w| > 0 && c in Crossings(w, thr)
    ensures start < c.1 <= |w| && w[start] > thr
  {
    DeltasPositive(w, thr);
    if c.0 < 0 then RunStart(w, thr, |w| - 1) else c.0
  }

  predicate InPulse(w: seq<real>, thr: real, t: int, c: (int, int))
    requires |w| > 0 && c in Crossings(w, thr)
  {
    PulseStart(w, thr, c) <= t < c.1
  }

  /** The highest among a pulse's own samples. */
  ghost predicate IsOwnPeak(w: seq<real>, thr: real, c: (int, int), v: real)
    requires |w| > 0 && c in Crossings(w, thr)
  {
    IsPeakOf(w, PulseStart(w, thr, c), c.1 - 1, v)
  }

  predicate IsHighest(w: seq<real>, t: nat)
    requires t < |w|
  {
    forall i :: 0 <= i < |w| ==> w[i] <= w[t]
  }

  /** The waveform is above the threshold at its end, and its highest sample stands in that last run. */
  ghost predicate EndsHighest(w: seq<real>, thr: real)
    requires |w| > 0
  {
    w[|w| - 1] > thr && exists t: nat :: RunStart(w, thr, |w| - 1) <= t < |w| && IsHighest(w, t)
  }

  /**
   The peak measured for a crossing is the pulse's own highest sample if and only if the crossing starts
   somewhere, or the waveform is nowhere higher than in its last run.
   */
  lemma PeakIsOwn(w: seq<real>, thr: real, c: (int, int), v: real)
    requires |w| > 0 && c in Crossings(w, thr) && -1 <= c.0 < |w| && c.0 < c.1 && IsPeak(w, c, v)
    ensures IsOwnPeak(w, thr, c, v) <==> c.0 >= 0 || EndsHighest(w, thr)
  {
    hide Crossings, RunStart, IsMaximum;
    DeltasPositive(w, thr);
    var t :| IsMaximum(w, Window(c, |w|).0, Window(c, |w|).1, v, t);
    if c.0 >= 0 {
      PulseFalls(w, thr, c);
      EndIsLower(w, c.0, c.1, v, t);
    } else {
      HighestOfRun(w, RunStart(w, thr, |w| - 1), v, t);
    }
  }

  /** A last sample below the first one does not matter for the maximum. */
  lemma EndIsLower(w: seq<real>, first: nat, past: nat, v: real, t: nat)
    requires first < past <= |w| && IsMaximum(w, first, if past < |w| then past else |w| - 1, v, t)
    requires past < |w| ==> w[past] < w[first]
    ensures IsMaximum(w, first, past - 1, v, t)
  {
  }

  /** The maximum of a waveform is that of its samples from `start` on exactly if it is reached there. */
  lemma HighestOfRun(w: seq<real>, start: nat, v: real, t: nat)
    requires start < |w| && IsMaximum(w, 0, |w| - 1, v, t)
    ensures IsPeakOf(w, start, |w| - 1, v) <==> exists u: nat :: start <= u < |w| && IsHighest(w, u)
  {
    if u: nat :| start <= u < |w| && IsHighest(w, u) {
      var first := FirstMaximum(w, start, |w| - 1);
      assert IsMaximum(w, start, |w| - 1, v, first);
    }
    if IsPeakOf(w, start, |w| - 1, v) {
      var u :| IsMaximum(w, start, |w| - 1, v, u);
      assert IsHighest(w, u);
    }
  }

  lemma PulseFalls(w: seq<real>, thr: real, c: (int, int))
    requires |w| > 0 && c in Crossings(w, thr)
    ensures 0 <= c.1 < |w| ==> w[c.1] < thr
  {
    hide ScanTo;
    CrossingEdges(w, thr, |w|);
  }

  /**
   The veto converter's choice: the highest of its single pulses, the first of equals. It is made if and
   only if some single pulse has a peak above the initial amplitude, as they all have with a threshold not
   below it; otherwise the code goes on with an index it has not set. The amplitude is the chosen pulse's
   own if and only if the pulse starts somewhere, or the waveform is nowhere higher than in it.
   */
  method VetoPulse(w: seq<real>, thr: real, minTot: real, dT: real)
    returns (crossings: seq<(int, int)>, singles: seq<nat>, amplitude: real, chosen: Option<nat>)
    requires |w| > 0 && dT > 0.0
    ensures crossings == Crossings(w, thr) && forall c :: c in crossings ==> -1 <= c.0 < |w| && c.0 < c.1
    ensures Selects(singles, |crossings|, (k: nat) => k < |crossings| && IsVetoSingle(crossings[k], |w|, minTot, dT))
    ensures chosen.Some? <==> SomePeakAbove(w, crossings, singles, -9999.0)
    ensures chosen.Some? ==>
              && chosen.value < |crossings| && IsPeak(w, crossings[chosen.value], amplitude)
              && (exists p :: FirstHighest(w, crossings, singles, amplitude, p) && singles[p] == chosen.value)
              && (IsOwnPeak(w, thr, crossings[chosen.value], amplitude)
                  <==> crossings[chosen.value].0 >= 0 || EndsHighest(w, thr))
    ensures forall i, v :: 0 <= i < |singles| && IsPeak(w, crossings[singles[i]], v) ==> thr < v <= amplitude
    ensures singles != [] && thr >= -9999.0 ==> chosen.Some? && amplitude > thr
  {
    hide Crossings, IsPeak, Window, IsOwnPeak, EndsHighest;
    crossings := FindCrossings(w, thr);
    DeltasPositive(w, thr);
    singles := [];
    for itime := 0 to |crossings|
      invariant Selects(singles, itime, (k: nat) => k < |crossings| && IsVetoSingle(crossings[k], |w|, minTot, dT))
    {
      var delta := crossings[itime].1 - crossings[itime].0;
      if delta as real > minTot / dT || crossings[itime].1 == |w| || crossings[itime].0 == 0 {
        singles := singles + [itime];
      }
    }
    amplitude, chosen := HighestPulse(w, crossings, singles);
    forall i, v | 0 <= i < |singles| && IsPeak(w, crossings[singles[i]], v)
      ensures thr < v
    {
      assert crossings[singles[i]] in crossings;
      PeaksBeatThreshold(w, thr, crossings[singles[i]], v);
    }
    if singles != [] {
      assert crossings[singles[0]] in crossings;
      ghost var v := PeakExists(w, crossings[singles[0]]);
    }
    if chosen.Some? {
      assert crossings[chosen.value] in crossings;
      PeakIsOwn(w, thr, crossings[chosen.value], amplitude);
    }
  }

  lemma PeaksBeatThreshold(w: seq<real>, thr: real, c: (int, int), v: real)
    requires |w| > 0 && c in Crossings(w, thr) && -1 <= c.0 < |w| && c.0 < c.1 && IsPeak(w, c, v)
    ensures v > thr
  {
    hide Crossings, IsPeak;
    DeltasPositive(w, thr);
    PeakAbove(w, c, v, if c.0 < 0 then |w| - 1 else c.0);
  }

  lemma PeakExists(w: seq<real>, c: (int, int)) returns (v: real)
    requires |w| > 0 && -1 <= c.0 < |w| && c.0 < c.1
    ensures IsPeak(w, c, v)
  {
    var (lo, hi) := Window(c, |w|);
    var t := FirstMaximum(w, lo, hi);
    v := w[t];
  }

  lemma {:induction false} FirstMaximum(x: seq<real>, first: nat, last: nat) returns (t: nat)
    requires first <= last < |x|
    ensures IsMaximum(x, first, last, if first <= t <= last then x[t] else 0.0, t)
    decreases last - first
  {
    t := last;
    if first == last {
    } else {
      t := FirstMaximum(x, first, last - 1);
      if x[last] > x[t] {
        t := last;
      }
    }
  }

  lemma PeakAbove(w: seq<real>, c: (int, int), v: real, t: nat)
    requires |w| > 0 && -1 <= c.0 < |w| && c.0 < c.1 && IsPeak(w, c, v)
    requires t < |w| && (t == c.0 || (c.0 < 0 && t == |w| - 1 && c.1 == |w|))
    ensures v >= w[t]
  {
  }

  // ---- The calorimeter's single pulse -------------------------------------------------------------

  /** The amplitude and its place, or a sample asked for that the waveform does not have. */
  datatype Measure = Measured(amplitude: real, tMax: nat) | OutsideWaveform

  /**
   The calorimeter converter's branch for one single pulse and no signal. It measures the first crossing,
   its end included, whichever crossing was selected. It reads outside the waveform if and only if the
   only pulse is still above the threshold at the waveform's end; otherwise the maximum found lies in the
   selected pulse if and only if that is the first crossing.
   */
  method MeasureSingle(w: seq<real>, thr: real, crossings: seq<(int, int)>, singles: seq<nat>) returns (m: Measure)
    requires |w| > 0 && crossings == Crossings(w, thr) && |singles| == 1 && singles[0] < |crossings|
    ensures m.OutsideWaveform? <==> |crossings| == 1 && w[|w| - 1] > thr
    ensures m.Measured? ==>
              && 0 <= crossings[0].0 < crossings[0].1 < |w| && m.amplitude > thr
              && crossings[0] in crossings && crossings[singles[0]] in crossings
              && InPulse(w, thr, m.tMax, crossings[0])
              && IsMaximum(w, crossings[0].0, crossings[0].1, m.amplitude, m.tMax)
              && (InPulse(w, thr, m.tMax, crossings[singles[0]]) <==> singles[0] == 0)
  {
    hide Crossings;
    FirstCrossing(w, thr);
    assert crossings[0] in crossings && crossings[singles[0]] in crossings;
    if singles[0] > 0 {
      PulsesApart(w, thr, 0, singles[0]);
    }
    var first, last := crossings[0].0, crossings[0].1;
    if first < 0 || last >= |w| {
      return OutsideWaveform;
    }
    var max, tMax := GetMaximum(w, first, last);
    return Measured(max, tMax);
  }

  /** The first crossing is closed inside the waveform unless it is the only one and open at the end. */
  lemma FirstCrossing(w: seq<real>, thr: real)
    requires |w| > 0 && Crossings(w, thr) != []
    ensures var c := Crossings(w, thr)[0];
            if |Crossings(w, thr)| == 1 && w[|w| - 1] > thr then c.1 == |w|
            else 0 <= c.0 < c.1 < |w| && w[c.0] > thr && w[c.1] < thr
  {
    hide ScanTo;
    CrossingEdges(w, thr, |w|);
    var inner := ScanTo(w, thr, |w|).crossings;
    if inner != [] {
      assert inner[0] in inner;
    }
  }

  /** On every waveform a later crossing starts at or after the end of an earlier one, if it starts anywhere. */
  lemma CrossingsApart(w: seq<real>, thr: real, j: nat, k: nat)
    requires |w| > 0 && j < k < |Crossings(w, thr)|
    ensures Crossings(w, thr)[k].0 < 0 || Crossings(w, thr)[j].1 <= Crossings(w, thr)[k].0
  {
    hide ScanTo;
    ScanApart(w, thr, |w|);
    var s := ScanTo(w, thr, |w|);
    assert j < |s.crossings|;
    if k == |s.crossings| {
      assert Crossings(w, thr)[k] == (s.first, |w|);
    }
  }

  /** On every waveform pulses are disjoint and in order, also the one that starts nowhere. */
  lemma PulsesApart(w: seq<real>, thr: real, j: nat, k: nat)
    requires |w| > 0 && j < k < |Crossings(w, thr)|
    ensures Crossings(w, thr)[j] in Crossings(w, thr) && Crossings(w, thr)[k] in Crossings(w, thr)
    ensures Crossings(w, thr)[j].1 <= PulseStart(w, thr, Crossings(w, thr)[k])
  {
    hide Crossings;
    var c, last := Crossings(w, thr)[j], Crossings(w, thr)[k];
    assert c in Crossings(w, thr) && last in Crossings(w, thr);
    CrossingsApart(w, thr, j, k);
    DeltasPositive(w, thr);
    if last.0 < 0 {
      EndsInside(w, thr, j, k);
      var start := RunStart(w, thr, |w| - 1);
      assert start > c.1;
    }
  }

  lemma EndsInside(w: seq<real>, thr: real, j: nat, k: nat)
    requires |w| > 0 && j < k < |Crossings(w, thr)|
    ensures 0 <= Crossings(w, thr)[j].1 < |w| && w[Crossings(w, thr)[j].1] < thr
  {
    hide ScanTo;
    CrossingEdges(w, thr, |w|);
    var s := ScanTo(w, thr, |w|);
    assert s.crossings[j] in s.crossings;
  }

  /** A spike too short to be selected stands first: the amplitude is the spike's, not the selected pulse's. */
  lemma WrongPulseExample()
    ensures var w := [0.0, 5.0, 0.0, 3.0, 3.0, 3.0, 0.0];
            && Crossings(w, 1.0) == [(1, 2), (3, 6)]
            && !IsSignal((1, 2), 9.0, 1.0) && !IsSignal((3, 6), 9.0, 1.0)
            && !IsSingle((1, 2), |w|, 9.0, 2.0, 1.0) && IsSingle((3, 6), |w|, 9.0, 2.0, 1.0)
            && IsMaximum(w, 1, 2, 5.0, 1) && IsPeak(w, (3, 6), 3.0)
  {
    var w := [0.0, 5.0, 0.0, 3.0, 3.0, 3.0, 0.0];
    assert ScanTo(w, 1.0, 1) == Scan(-1, []);
    assert ScanTo(w, 1.0, 2) == Scan(1, []);
    assert ScanTo(w, 1.0, 3) == Scan(-1, [(1, 2)]);
    assert ScanTo(w, 1.0, 4) == Scan(3, [(1, 2)]);
    assert ScanTo(w, 1.0, 5) == Scan(3, [(1, 2)]);
    assert ScanTo(w, 1.0, 6) == Scan(3, [(1, 2)]);
    assert ScanTo(w, 1.0, 7) == Scan(-1, [(1, 2), (3, 6)]);
    assert Window((3, 6), |w|) == (3, 6) && IsMaximum(w, 3, 6, 3.0, 3);
  }

  /** A pulse that lasts to the end of the waveform: the sample past the last one is read. */
  lemma OpenPulseExample()
    ensures Crossings([0.0, 2.0, 2.0], 1.0) == [(1, 3)] && IsSingle((1, 3), 3, 9.0, 2.0, 1.0)
  {
    var w := [0.0, 2.0, 2.0];
    assert ScanTo(w, 1.0, 1) == Scan(-1, []);
    assert ScanTo(w, 1.0, 2) == Scan(1, []);
    assert ScanTo(w, 1.0, 3) == Scan(1, []);
  }

  /**
   A spike in front of a pulse that starts nowhere, entered from the threshold, and lasts to the end. Only
   that pulse is selected, but both converters measure the spike.
   */
  lemma SpikeBeforeEndExample()
    ensures var w := [0.0, 5.0, 0.0, 1.0, 2.0];
            && Crossings(w, 1.0) == [(1, 2), (-1, 5)] && (-1, 5) in Crossings(w, 1.0)
            && !IsSingle((1, 2), 5, 9.0, 2.0, 1.0) && IsSingle((-1, 5), 5, 9.0, 2.0, 1.0)
            && IsMaximum(w, 1, 2, 5.0, 1) && !InPulse(w, 1.0, 1, (-1, 5))
            && !IsVetoSingle((1, 2), 5, 2.0, 1.0) && IsVetoSingle((-1, 5), 5, 2.0, 1.0)
            && IsPeak(w, (-1, 5), 5.0) && !IsOwnPeak(w, 1.0, (-1, 5), 5.0) && IsOwnPeak(w, 1.0, (-1, 5), 2.0)
  {
    var w := [0.0, 5.0, 0.0, 1.0, 2.0];
    assert ScanTo(w, 1.0, 1) == Scan(-1, []);
    assert ScanTo(w, 1.0, 2) == Scan(1, []);
    assert ScanTo(w, 1.0, 3) == Scan(-1, [(1, 2)]);
    assert ScanTo(w, 1.0, 4) == Scan(-1, [(1, 2)]);
    assert ScanTo(w, 1.0, 5) == Scan(-1, [(1, 2)]);
    assert RunStart(w, 1.0, 4) == 4;
    assert Window((-1, 5), 5) == (0, 4) && IsMaximum(w, 0, 4, 5.0, 1);
    assert IsMaximum(w, 4, 4, 2.0, 4);
  }
}
