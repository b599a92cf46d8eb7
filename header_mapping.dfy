/**
 * Automatic header mapping: for every reference header, the target header it is
 * mapped to, if any. A case-insensitively equal target header is taken at once;
 * otherwise the first target header with the highest similarity score above 0.6.
 */
module HeaderMapping {
  import opened Wrappers
  import opened Text
  import opened Difflib
  import opened OrderedDict

  /** Exact match of the auto-mapper: equal after lower-casing. */
  predicate SameIgnoringCase(src: string, tgt: string) {
    Lower(src) == Lower(tgt)
  }

  /** `SequenceMatcher(None, src.lower(), tgt.lower()).ratio()`, a score in [0, 1]. */
  function HeaderRatio(src: string, tgt: string): (r: Ratio)
    ensures 0 < r.den && r.num <= r.den
  {
    SequenceRatio(Lower(src), Lower(tgt))
  }

  /** The variables of the scan over target headers: best_match, best_ratio, and whether it stopped at an exact match. */
  datatype Scan = Scan(best: Option<string>, ratio: Ratio, exact: bool)

  /** The scan over `targets` for reference header `src`, one target header at a time. */
  function ScanTargets(src: string, targets: seq<string>): Scan
    decreases |targets|
  {
    if targets == [] then Scan(None, Ratio(0, 1), false)
    else
      Step(src, ScanTargets(src, targets[..|targets| - 1]), targets[|targets| - 1])
  }

  /** One iteration of the scan, on target header t; a scan that stopped stays stopped. */
  function Step(src: string, s: Scan, t: string): Scan {
    if s.exact then s
    else if SameIgnoringCase(src, t) then Scan(Some(t), Ratio(1, 1), true)
    else
      var r := HeaderRatio(src, t);
      if Greater(r, s.ratio) && AboveThreshold(r) then Scan(Some(t), r, false) else s
  }

  /** The target header chosen for `src`, if any. */
  function BestMatch(src: string, targets: seq<string>): Option<string> {
    ScanTargets(src, targets).best
  }

  /** The scan over target headers for one reference header, as the auto-mapper runs it. */
  method FindBestMatch(src: string, targets: seq<string>) returns (best: Option<string>)
    ensures best == BestMatch(src, targets)
  {
    best := None;
    var bestRatio := Ratio(0, 1);
    var j := 0;
    while j < |targets|
      invariant 0 <= j <= |targets|
      invariant ScanTargets(src, targets[..j]) == Scan(best, bestRatio, false)
    {
      var t := targets[j];
      assert targets[..j + 1][..j] == targets[..j];
      if Lower(src) == Lower(t) {
        best := Some(t);
        bestRatio := Ratio(1, 1);
        ExactIsFinal(src, targets, j);
        return;
      }
      var ratio := SequenceRatio(Lower(src), Lower(t));
      if Greater(ratio, bestRatio) && AboveThreshold(ratio) {
        bestRatio := ratio;
        best := Some(t);
      }
      j := j + 1;
    }
    assert targets[..j] == targets;
  }

  /** The scan stops at an exact match exactly when some target header matches exactly. */
  lemma {:induction false} ExactFlag(src: string, targets: seq<string>)
    ensures ScanTargets(src, targets).exact <==> exists u :: 0 <= u < |targets| && SameIgnoringCase(src, targets[u])
    decreases |targets|
  {
    if targets != [] {
      var init := targets[..|targets| - 1];
      ExactFlag(src, init);
      assert forall u :: 0 <= u < |init| ==> init[u] == targets[u];
    }
  }

  /** Once the scan reaches its first exact match, the later target headers change nothing. */
  lemma {:induction false} ExactIsFinal(src: string, targets: seq<string>, j: nat)
    requires j < |targets|
    requires !ScanTargets(src, targets[..j]).exact && SameIgnoringCase(src, targets[j])
    ensures ScanTargets(src, targets) == Scan(Some(targets[j]), Ratio(1, 1), true)
    decreases |targets|
  {
    var init := targets[..|targets| - 1];
    if j == |targets| - 1 {
      assert init == targets[..j];
    } else {
      assert init[..j] == targets[..j];
      ExactIsFinal(src, init, j);
    }
  }

  /** The first case-insensitively equal target header wins, whatever scored higher before it. */
  lemma ExactMatchWins(src: string, targets: seq<string>, j: nat)
    requires j < |targets| && SameIgnoringCase(src, targets[j])
    requires forall u :: 0 <= u < j ==> !SameIgnoringCase(src, targets[u])
    ensures BestMatch(src, targets) == Some(targets[j])
  {
    ExactFlag(src, targets[..j]);
    ExactIsFinal(src, targets, j);
  }

  /**
   * Target header k is the similarity choice: above the threshold, no target header
   * scores strictly higher, and every earlier one above the threshold scores strictly lower.
   */
  ghost predicate ChosenBySimilarity(src: string, targets: seq<string>, k: int) {
    && 0 <= k < |targets|
    && AboveThreshold(HeaderRatio(src, targets[k]))
    && (forall u :: 0 <= u < |targets| ==> !Greater(HeaderRatio(src, targets[u]), HeaderRatio(src, targets[k])))
    && (forall u :: 0 <= u < k && AboveThreshold(HeaderRatio(src, targets[u])) ==>
          Greater(HeaderRatio(src, targets[k]), HeaderRatio(src, targets[u])))
  }

  lemma ChosenIsUnique(src: string, targets: seq<string>, k1: int, k2: int)
    requires ChosenBySimilarity(src, targets, k1) && ChosenBySimilarity(src, targets, k2)
    ensures k1 == k2
  {
    var r1, r2 := HeaderRatio(src, targets[k1]), HeaderRatio(src, targets[k2]);
    assert k1 < k2 ==> Greater(r2, r1);
    assert k2 < k1 ==> Greater(r1, r2);
  }

  lemma AboveIsGreaterThanBelow(x: Ratio, z: Ratio)
    requires 0 < x.den && 0 < z.den
    requires !AboveThreshold(x) && AboveThreshold(z)
    ensures Greater(z, x) && !Greater(x, z)
  {
    GreaterThanAtLeast(x, Ratio(3, 5), z);
  }

  /** What the scan holds after target headers none of which matches exactly. */
  ghost predicate ScanInvariant(src: string, targets: seq<string>, s: Scan) {
    && !s.exact && 0 < s.ratio.den
    && (s.best.None? ==>
          && s.ratio == Ratio(0, 1)
          && forall u :: 0 <= u < |targets| ==> !AboveThreshold(HeaderRatio(src, targets[u])))
    && (s.best.Some? ==>
          exists k :: ChosenBySimilarity(src, targets, k) && s.best.value == targets[k] && s.ratio == HeaderRatio(src, targets[k]))
  }

  /** The first target header above the threshold becomes the similarity choice. */
  lemma StepFromNone(src: string, init: seq<string>, t: string)
    requires forall u :: 0 <= u < |init| ==> !AboveThreshold(HeaderRatio(src, init[u]))
    requires AboveThreshold(HeaderRatio(src, t))
    ensures ChosenBySimilarity(src, init + [t], |init|)
  {
    var targets := init + [t];
    var r := HeaderRatio(src, t);
    forall u | 0 <= u < |targets| ensures !Greater(HeaderRatio(src, targets[u]), r) {
      if u < |init| {
        AboveIsGreaterThanBelow(HeaderRatio(src, init[u]), r);
      }
    }
  }

  /** A target header scoring above the threshold and strictly above the choice so far replaces it. */
  lemma StepReplaces(src: string, init: seq<string>, t: string, k: int)
    requires ChosenBySimilarity(src, init, k)
    requires AboveThreshold(HeaderRatio(src, t)) && Greater(HeaderRatio(src, t), HeaderRatio(src, init[k]))
    ensures ChosenBySimilarity(src, init + [t], |init|)
  {
    var targets := init + [t];
    var r, rk := HeaderRatio(src, t), HeaderRatio(src, init[k]);
    forall u | 0 <= u < |targets| ensures !Greater(HeaderRatio(src, targets[u]), r) {
      if u < |init| {
        GreaterThanAtLeast(HeaderRatio(src, init[u]), rk, r);
      }
    }
    forall u | 0 <= u < |init| && AboveThreshold(HeaderRatio(src, targets[u]))
      ensures Greater(r, HeaderRatio(src, targets[u]))
    {
      GreaterThanAtLeast(HeaderRatio(src, init[u]), rk, r);
    }
  }

  /** Any other target header leaves the similarity choice in place. */
  lemma StepKeeps(src: string, init: seq<string>, t: string, k: int)
    requires ChosenBySimilarity(src, init, k)
    requires !(AboveThreshold(HeaderRatio(src, t)) && Greater(HeaderRatio(src, t), HeaderRatio(src, init[k])))
    ensures ChosenBySimilarity(src, init + [t], k)
  {
    var targets := init + [t];
    var r, rk := HeaderRatio(src, t), HeaderRatio(src, init[k]);
    if !AboveThreshold(r) {
      AboveIsGreaterThanBelow(r, rk);
    }
    assert forall u :: 0 <= u < |init| ==> targets[u] == init[u];
  }

  lemma {:induction false} ScanWithoutExact(src: string, targets: seq<string>)
    requires forall u :: 0 <= u < |targets| ==> !SameIgnoringCase(src, targets[u])
    ensures ScanInvariant(src, targets, ScanTargets(src, targets))
    decreases |targets|
  {
    if targets != [] {
      var n := |targets| - 1;
      var init, t := targets[..n], targets[n];
      assert targets == init + [t];
      ScanWithoutExact(src, init);
      var s := ScanTargets(src, init);
      var r := HeaderRatio(src, t);
      if s.best.None? {
        if AboveThreshold(r) {
          StepFromNone(src, init, t);
        }
      } else {
        var k :| ChosenBySimilarity(src, init, k) && s.best.value == init[k] && s.ratio == HeaderRatio(src, init[k]);
        if Greater(r, s.ratio) && AboveThreshold(r) {
          StepReplaces(src, init, t, k);
        } else {
          StepKeeps(src, init, t, k);
          assert s.best.value == targets[k];
        }
      }
    }
  }

  /**
   * Without an exact match: no header is chosen exactly when every score is at most
   * 0.6, and otherwise the chosen header is the similarity choice (a tie keeps the earlier).
   */
  lemma SimilarityRule(src: string, targets: seq<string>)
    requires forall u :: 0 <= u < |targets| ==> !SameIgnoringCase(src, targets[u])
    ensures BestMatch(src, targets).None? <==>
              forall u :: 0 <= u < |targets| ==> !AboveThreshold(HeaderRatio(src, targets[u]))
    ensures forall k :: ChosenBySimilarity(src, targets, k) ==> BestMatch(src, targets) == Some(targets[k])
    ensures BestMatch(src, targets).Some? ==>
              exists k :: ChosenBySimilarity(src, targets, k) && targets[k] == BestMatch(src, targets).value
  {
    ScanWithoutExact(src, targets);
    var s := ScanTargets(src, targets);
    if s.best.Some? {
      var k :| ChosenBySimilarity(src, targets, k) && s.best.value == targets[k] && s.ratio == HeaderRatio(src, targets[k]);
      forall k' | ChosenBySimilarity(src, targets, k') ensures BestMatch(src, targets) == Some(targets[k']) {
        ChosenIsUnique(src, targets, k, k');
      }
    } else {
      forall k' | ChosenBySimilarity(src, targets, k') ensures false {
      }
    }
  }

  /** The chosen header is always one of the target headers. */
  lemma {:induction false} BestMatchIsTarget(src: string, targets: seq<string>)
    ensures BestMatch(src, targets).Some? ==> BestMatch(src, targets).value in targets
    decreases |targets|
  {
    if targets != [] {
      BestMatchIsTarget(src, targets[..|targets| - 1]);
    }
  }

  /** `if best_match:` a chosen header that is the empty string is not recorded. */
  predicate Recorded(src: string, targets: seq<string>) {
    BestMatch(src, targets).Some? && BestMatch(src, targets).value != ""
  }

  /** The mapping `auto_map_columns` builds from an empty dict over the reference headers in order. */
  function AutoMap(refs: seq<string>, targets: seq<string>): (m: OrderedMap<string>)
    ensures m.Valid()
    decreases |refs|
  {
    if refs == [] then Empty()
    else
      var m := AutoMap(refs[..|refs| - 1], targets);
      var src := refs[|refs| - 1];
      if Recorded(src, targets) then m.Put(src, BestMatch(src, targets).value) else m
  }

  /**
   * The auto-mapping depends on the two header lists alone: its keys are the
   * reference headers with a recorded choice, and each maps to its chosen target header.
   */
  lemma {:induction false} AutoMapEntries(refs: seq<string>, targets: seq<string>)
    ensures forall k :: k in AutoMap(refs, targets).entries <==> k in refs && Recorded(k, targets)
    ensures forall k :: k in AutoMap(refs, targets).entries ==>
              Recorded(k, targets) && AutoMap(refs, targets).entries[k] == BestMatch(k, targets).value
              && AutoMap(refs, targets).entries[k] in targets && AutoMap(refs, targets).entries[k] != ""
    decreases |refs|
  {
    if refs != [] {
      var init := refs[..|refs| - 1];
      AutoMapEntries(init, targets);
      assert refs == init + [refs[|refs| - 1]];
      forall k | k in refs && Recorded(k, targets) ensures BestMatch(k, targets).value in targets {
        BestMatchIsTarget(k, targets);
      }
    }
  }

  /** The reference headers with a recorded choice, in reference order. */
  function RecordedHeaders(refs: seq<string>, targets: seq<string>): (r: seq<string>)
    ensures forall k :: k in r <==> k in refs && Recorded(k, targets)
    decreases |refs|
  {
    if refs == [] then []
    else
      var init := RecordedHeaders(refs[..|refs| - 1], targets);
      var src := refs[|refs| - 1];
      if Recorded(src, targets) then init + [src] else init
  }

  /**
   * The keys of the auto-mapping come in reference-header order: for reference
   * headers that are all distinct, as a read table's are, the key order is the
   * recorded headers in the order they appear.
   */
  lemma {:induction false} AutoMapKeyOrder(refs: seq<string>, targets: seq<string>)
    requires forall p, q :: 0 <= p < q < |refs| ==> refs[p] != refs[q]
    ensures AutoMap(refs, targets).keys == RecordedHeaders(refs, targets)
    decreases |refs|
  {
    if refs != [] {
      var init := refs[..|refs| - 1];
      var src := refs[|refs| - 1];
      AutoMapKeyOrder(init, targets);
      AutoMapEntries(init, targets);
      assert src !in init;
      assert src !in AutoMap(init, targets).entries;
    }
  }
}
