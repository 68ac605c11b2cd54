/** The discrete bookkeeping of the inverse grid solver: `n` permittivity
    samples (outer index `i`), `n` correlation-length samples (inner index
    `j`), a validity flag per permittivity sample, and a shared upper bound
    `jn` on the correlation-length scan that only ever shrinks.

    The forward prediction and its comparison with the observed power are an
    uninterpreted oracle `accept(i, j)`.  `Run` is a functional reference for
    the nested loop; `SearchGrid` is the loop itself and is proved to agree
    with it.
 */
module GridSearch {

  datatype Option<T> = None | Some(value: T)

  /** One call of the forward predictor, at permittivity index `eps` and
      correlation-length index `corr`. */
  datatype Probe = Probe(eps: nat, corr: nat)

  /** Acceptance of a (permittivity, correlation length) grid point. */
  type Oracle = (nat, nat) -> bool

  /** The largest `j < bound` that `accept(i, _)` accepts, found by scanning
      downward from `bound - 1`; `None` if no index below `bound` is accepted. */
  function ScanDown(accept: Oracle, i: nat, bound: nat): (r: Option<nat>)
    ensures r.Some? ==> r.value < bound && accept(i, r.value)
    ensures r.Some? ==> forall j :: r.value < j < bound ==> !accept(i, j)
    ensures r.None? ==> forall j :: 0 <= j < bound ==> !accept(i, j)
    decreases bound
  {
    if bound == 0 then None
    else if accept(i, bound - 1) then Some(bound - 1)
    else ScanDown(accept, i, bound - 1)
  }

  /** The probes of a downward scan that visits `hi - 1`, `hi - 2`, ..., `lo`. */
  function Descend(i: nat, hi: nat, lo: nat): seq<Probe>
    requires lo <= hi
  {
    seq(hi - lo, k requires 0 <= k < hi - lo => Probe(i, hi - 1 - k))
  }

  /** What one iteration of the outer loop produces. */
  datatype StepResult = StepResult(pick: Option<nat>, bound: nat, probes: seq<Probe>)

  /** One iteration of the outer loop, for permittivity index `i` with the
      shared bound at `bound`: skip an invalid sample; otherwise scan
      downward, and on acceptance of `j` set the bound to `j + 1`, clamped to
      the grid size. */
  function Step(valid: seq<bool>, accept: Oracle, i: nat, bound: nat): (r: StepResult)
    requires i < |valid| && bound <= |valid|
    ensures r.pick.Some? <==> valid[i] && exists j :: 0 <= j < bound && accept(i, j)
    ensures r.pick.Some? ==> r.pick.value < bound && accept(i, r.pick.value) && r.bound == r.pick.value + 1
    ensures r.pick.Some? ==> forall j :: r.pick.value < j < bound ==> !accept(i, j)
    ensures r.pick.None? ==> r.bound == bound
    ensures !valid[i] ==> r.probes == []
    ensures valid[i] ==> |r.probes| == bound - (if r.pick.Some? then r.pick.value else 0)
    ensures forall k :: 0 <= k < |r.probes| ==> r.probes[k] == Probe(i, bound - 1 - k)
  {
    if !valid[i] then StepResult(None, bound, [])
    else
      match ScanDown(accept, i, bound)
      case None => StepResult(None, bound, Descend(i, bound, 0))
      case Some(j) =>
        var jn := j + 1;
        StepResult(Some(j), if jn > |valid| then |valid| else jn, Descend(i, bound, j))
  }

  /** The state of the search after the first `k` permittivity samples:
      the shared bound, the selection made for each sample, and every
      forward-predictor call so far, in call order. */
  datatype State = State(bound: nat, sel: seq<Option<nat>>, probes: seq<Probe>)

  function Run(valid: seq<bool>, accept: Oracle, k: nat): (s: State)
    requires k <= |valid|
    ensures |s.sel| == k
    ensures s.bound <= |valid|
    decreases k
  {
    if k == 0 then State(|valid|, [], [])
    else
      var s := Run(valid, accept, k - 1);
      var r := Step(valid, accept, k - 1, s.bound);
      State(r.bound, s.sel + [r.pick], s.probes + r.probes)
  }

  /** What holds of the search after any number of outer iterations:
      invalid samples have no selection, every selection lies below the grid
      size and at least one below the current bound, and every
      forward-predictor call so far was for a valid sample already reached
      and a correlation index inside the grid. */
  lemma {:induction false} RunInvariant(valid: seq<bool>, accept: Oracle, k: nat)
    requires k <= |valid|
    ensures var s := Run(valid, accept, k);
            forall i :: 0 <= i < k && !valid[i] ==> s.sel[i].None?
    ensures var s := Run(valid, accept, k);
            forall i :: 0 <= i < k && s.sel[i].Some? ==>
              s.sel[i].value < |valid| && 1 <= s.bound <= s.sel[i].value + 1
    ensures var s := Run(valid, accept, k);
            forall m :: 0 <= m < |s.probes| ==>
              s.probes[m].eps < k && valid[s.probes[m].eps] && s.probes[m].corr < |valid|
  {
    if k > 0 {
      RunInvariant(valid, accept, k - 1);
      var s := Run(valid, accept, k - 1);
      var r := Step(valid, accept, k - 1, s.bound);
      var t := Run(valid, accept, k);
      assert t == State(r.bound, s.sel + [r.pick], s.probes + r.probes);
      forall i | 0 <= i < k && t.sel[i].Some?
        ensures t.sel[i].value < |valid| && 1 <= t.bound <= t.sel[i].value + 1
      {
        if i < k - 1 {
          assert t.sel[i] == s.sel[i];
        } else {
          assert t.sel[i] == r.pick;
        }
      }
      forall m | 0 <= m < |t.probes|
        ensures t.probes[m].eps < k && valid[t.probes[m].eps] && t.probes[m].corr < |valid|
      {
        if m < |s.probes| {
          assert t.probes[m] == s.probes[m];
        } else {
          var q := m - |s.probes|;
          assert t.probes[m] == r.probes[q] == Probe(k - 1, s.bound - 1 - q);
          assert valid[k - 1];
        }
      }
    }
  }

  /** Each sample searched on its own from the top of the grid, with no
      shared bound. */
  function Independent(valid: seq<bool>, accept: Oracle): seq<Option<nat>> {
    seq(|valid|, i requires 0 <= i < |valid| => Step(valid, accept, i, |valid|).pick)
  }

  /** `t` continues `s`: the selections and calls of `s` are a prefix of
      those of `t`, and the shared bound has not grown. */
  predicate Extends(s: State, t: State) {
    && |s.sel| <= |t.sel| && s.sel == t.sel[..|s.sel|]
    && |s.probes| <= |t.probes| && s.probes == t.probes[..|s.probes|]
    && t.bound <= s.bound
  }

  lemma ExtendsTransitive(s: State, t: State, u: State)
    requires Extends(s, t) && Extends(t, u)
    ensures Extends(s, u)
  {
  }

  /** One more outer iteration only appends and never raises the bound. */
  lemma RunStepExtends(valid: seq<bool>, accept: Oracle, k: nat)
    requires k < |valid|
    ensures Extends(Run(valid, accept, k), Run(valid, accept, k + 1))
  {
  }

  /** Later states extend earlier ones: selections already made are never
      revised, the call log only grows and the bound only shrinks. */
  lemma {:induction false} RunPrefix(valid: seq<bool>, accept: Oracle, k: nat, m: nat)
    requires k <= m <= |valid|
    ensures Extends(Run(valid, accept, k), Run(valid, accept, m))
    decreases m - k
  {
    if k < m {
      RunPrefix(valid, accept, k, m - 1);
      RunStepExtends(valid, accept, m - 1);
      ExtendsTransitive(Run(valid, accept, k), Run(valid, accept, m - 1), Run(valid, accept, m));
    }
  }

  /** At any later point of the search, the selection for sample `i` is the
      outcome of one step taken from the bound left by the samples before
      it: the largest index accepted strictly below that bound, or none. */
  lemma {:induction false} SelectionIsStepFromCurrentBound(valid: seq<bool>, accept: Oracle, i: nat, k: nat)
    requires i < k <= |valid|
    ensures Run(valid, accept, k).sel[i] == Step(valid, accept, i, Run(valid, accept, i).bound).pick
  {
    var s := Run(valid, accept, i);
    var r := Step(valid, accept, i, s.bound);
    assert Run(valid, accept, i + 1).sel == s.sel + [r.pick];
    RunPrefix(valid, accept, i + 1, k);
  }

  /** For two samples that both find a solution, the later one's
      correlation-length index is at most the earlier one's. */
  lemma SelectionsNonIncreasing(valid: seq<bool>, accept: Oracle, i1: nat, i2: nat, k: nat)
    requires i1 < i2 < k <= |valid|
    requires Run(valid, accept, k).sel[i1].Some? && Run(valid, accept, k).sel[i2].Some?
    ensures Run(valid, accept, k).sel[i2].value <= Run(valid, accept, k).sel[i1].value
  {
    var later := Run(valid, accept, k).sel;
    RunPrefix(valid, accept, i2, k);
    RunInvariant(valid, accept, i2);
    SelectionIsStepFromCurrentBound(valid, accept, i2, k);
    assert Run(valid, accept, i2).sel[i1] == later[i1];
  }

  /** Every forward-predictor call for sample `i` targets a correlation
      index below the bound that was current when sample `i` was reached. */
  lemma {:induction false} ProbesBelowCurrentBound(valid: seq<bool>, accept: Oracle, k: nat)
    requires k <= |valid|
    ensures forall m :: 0 <= m < |Run(valid, accept, k).probes| ==>
              var p := Run(valid, accept, k).probes[m];
              p.eps < k && p.corr < Run(valid, accept, p.eps).bound
  {
    if k > 0 {
      ProbesBelowCurrentBound(valid, accept, k - 1);
      var s := Run(valid, accept, k - 1);
      var r := Step(valid, accept, k - 1, s.bound);
      var t := Run(valid, accept, k);
      assert t.probes == s.probes + r.probes;
      forall m | 0 <= m < |t.probes|
        ensures t.probes[m].eps < k && t.probes[m].corr < Run(valid, accept, t.probes[m].eps).bound
      {
        if m < |s.probes| {
          assert t.probes[m] == s.probes[m];
        } else {
          assert t.probes[m] == r.probes[m - |s.probes|];
        }
      }
    }
  }

  /** A scan from a lower bound returns what the top-of-grid scan returns
      whenever that answer lies below the lower bound (or does not exist). */
  lemma ScanDownNarrowed(accept: Oracle, i: nat, bound: nat, n: nat)
    requires bound <= n
    requires ScanDown(accept, i, n).Some? ==> ScanDown(accept, i, n).value < bound
    ensures ScanDown(accept, i, bound) == ScanDown(accept, i, n)
  {
  }

  /** While the top-of-grid choices of all later samples stay below the
      current bound, the shared-bound search reproduces the independent one. */
  lemma {:induction false} SharedAgreesSoFar(valid: seq<bool>, accept: Oracle, k: nat)
    requires k <= |valid|
    requires forall i1, i2 :: (0 <= i1 < i2 < |valid| &&
               Independent(valid, accept)[i1].Some? && Independent(valid, accept)[i2].Some?) ==>
               Independent(valid, accept)[i2].value <= Independent(valid, accept)[i1].value
    ensures Run(valid, accept, k).sel == Independent(valid, accept)[..k]
    ensures forall i :: (k <= i < |valid| && Independent(valid, accept)[i].Some?) ==>
              Independent(valid, accept)[i].value < Run(valid, accept, k).bound
  {
    var ind := Independent(valid, accept);
    if k > 0 {
      SharedAgreesSoFar(valid, accept, k - 1);
      var s := Run(valid, accept, k - 1);
      var i := k - 1;
      assert ind[i] == Step(valid, accept, i, |valid|).pick;
      if valid[i] {
        ScanDownNarrowed(accept, i, s.bound, |valid|);
      }
      var r := Step(valid, accept, i, s.bound);
      assert r.pick == ind[i];
      assert Run(valid, accept, k) == State(r.bound, s.sel + [r.pick], s.probes + r.probes);
      assert ind[..k] == ind[..k - 1] + [ind[i]];
      forall i' | k <= i' < |valid| && ind[i'].Some?
        ensures ind[i'].value < Run(valid, accept, k).bound
      {
        if r.pick.Some? {
          assert ind[i'].value <= ind[i].value;
        }
      }
    }
  }

  /** The shared shrinking bound leaves the result unchanged, compared with
      searching every sample from the top of the grid, exactly when the
      top-of-grid choices are already non-increasing across samples. */
  lemma SharedBoundMatchesIndependentIff(valid: seq<bool>, accept: Oracle)
    ensures Run(valid, accept, |valid|).sel == Independent(valid, accept) <==>
            forall i1, i2 :: (0 <= i1 < i2 < |valid| &&
              Independent(valid, accept)[i1].Some? && Independent(valid, accept)[i2].Some?) ==>
              Independent(valid, accept)[i2].value <= Independent(valid, accept)[i1].value
  {
    var ind := Independent(valid, accept);
    var sel := Run(valid, accept, |valid|).sel;
    if sel == ind {
      forall i1, i2 | 0 <= i1 < i2 < |valid| && ind[i1].Some? && ind[i2].Some?
        ensures ind[i2].value <= ind[i1].value
      {
        SelectionsNonIncreasing(valid, accept, i1, i2, |valid|);
      }
    }
    if forall i1, i2 :: (0 <= i1 < i2 < |valid| && ind[i1].Some? && ind[i2].Some?) ==>
         ind[i2].value <= ind[i1].value {
      SharedAgreesSoFar(valid, accept, |valid|);
      assert ind[..|valid|] == ind;
    }
  }

  /** The shared bound is not only a speed-up: with two samples where the
      first accepts only index 0 and the second only index 1, the shared
      search finds nothing for the second sample while an independent
      search finds index 1. */
  lemma SharedBoundCanLoseSolutions()
    ensures Run([true, true], (i: nat, j: nat) => i == j, 2).sel == [Some(0), None]
    ensures Independent([true, true], (i: nat, j: nat) => i == j) == [Some(0), Some(1)]
  {
    var valid := [true, true];
    var accept := (i: nat, j: nat) => i == j;
    assert ScanDown(accept, 0, 2) == Some(0);
    assert ScanDown(accept, 1, 1) == None;
    assert ScanDown(accept, 1, 2) == Some(1);
    var ind := Independent(valid, accept);
    assert ind[0] == Some(0) && ind[1] == Some(1);
  }

  /** The inner loop: scan correlation-length indices `jn - 1` down to `0`
      for permittivity sample `i`, stopping at the first accepted one.
      `scanned` logs the forward-predictor calls made, in order. */
  method ScanCorrelation(accept: Oracle, i: nat, jn: nat) returns (pick: Option<nat>, scanned: seq<Probe>)
    ensures pick.Some? ==> pick.value < jn && accept(i, pick.value)
    ensures pick.Some? ==> forall j :: pick.value < j < jn ==> !accept(i, j)
    ensures pick.None? ==> forall j :: 0 <= j < jn ==> !accept(i, j)
    ensures |scanned| == jn - (if pick.Some? then pick.value else 0)
    ensures forall k :: 0 <= k < |scanned| ==> scanned[k] == Probe(i, jn - 1 - k)
    ensures pick == ScanDown(accept, i, jn)
    ensures scanned == Descend(i, jn, if pick.Some? then pick.value else 0)
  {
    pick := None;
    scanned := [];
    for j := jn downto 0
      invariant forall j' :: j <= j' < jn ==> !accept(i, j')
      invariant scanned == Descend(i, jn, j)
    {
      scanned := scanned + [Probe(i, j)];
      if accept(i, j) {
        pick := Some(j);
        break;
      }
    }
  }

  /** The nested search loop of the inverse solver.  `sel[i]` is the
      selected correlation-length index for permittivity sample `i` (None
      where the output stays NaN), `probes` logs every forward-predictor
      call, `jn` is the final shared bound and `clamped` records whether the
      `jn > n` clamp ever fired. */
  method SearchGrid(valid: seq<bool>, accept: Oracle, n: nat)
    returns (sel: seq<Option<nat>>, probes: seq<Probe>, jn: nat, clamped: bool)
    requires |valid| == n
    ensures |sel| == n
    ensures forall i :: 0 <= i < n && !valid[i] ==> sel[i].None?
    ensures forall i :: 0 <= i < n && sel[i].Some? ==> sel[i].value < n && accept(i, sel[i].value)
    ensures forall i1, i2 :: (0 <= i1 < i2 < n && sel[i1].Some? && sel[i2].Some?) ==>
              sel[i2].value <= sel[i1].value
    ensures forall m :: 0 <= m < |probes| ==>
              probes[m].eps < n && valid[probes[m].eps] && probes[m].corr < n
    ensures jn <= n
    ensures forall i :: 0 <= i < n && sel[i].Some? ==> 1 <= jn <= sel[i].value + 1
    ensures (forall i :: 0 <= i < n ==> sel[i].None?) ==> jn == n
    ensures !clamped
    ensures sel == Run(valid, accept, n).sel
    ensures probes == Run(valid, accept, n).probes
    ensures jn == Run(valid, accept, n).bound
  {
    sel := seq(n, _ => None);
    probes := [];
    jn := n;
    clamped := false;
    for i := 0 to n
      invariant |sel| == n
      invariant forall k :: 0 <= k < i ==> sel[k] == Run(valid, accept, i).sel[k]
      invariant forall k :: i <= k < n ==> sel[k].None?
      invariant probes == Run(valid, accept, i).probes
      invariant jn == Run(valid, accept, i).bound
      invariant !clamped
    {
      ghost var step := Step(valid, accept, i, jn);
      RunUnfold(valid, accept, i);
      if valid[i] {
        var pick, scanned := ScanCorrelation(accept, i, jn);
        assert pick == step.pick && scanned == step.probes;
        probes := probes + scanned;
        if pick.Some? {
          jn := pick.value + 1;
          if jn > n {
            jn := n;
            clamped := true;
          }
          sel := sel[i := pick];
        }
      }
    }
    assert sel == Run(valid, accept, n).sel;
    RunInvariant(valid, accept, n);
    RunSelections(valid, accept, n);
  }

  /** One outer iteration of the reference, spelled out. */
  lemma RunUnfold(valid: seq<bool>, accept: Oracle, i: nat)
    requires i < |valid|
    ensures var s := Run(valid, accept, i);
            var r := Step(valid, accept, i, s.bound);
            Run(valid, accept, i + 1) == State(r.bound, s.sel + [r.pick], s.probes + r.probes)
  {
  }

  /** After any number of samples the selections made are accepted and
      non-increasing, and the bound is still the grid size if none was made. */
  lemma RunSelections(valid: seq<bool>, accept: Oracle, k: nat)
    requires k <= |valid|
    ensures var sel := Run(valid, accept, k).sel;
            forall i1, i2 :: (0 <= i1 < i2 < k && sel[i1].Some? && sel[i2].Some?) ==>
              sel[i2].value <= sel[i1].value
    ensures var sel := Run(valid, accept, k).sel;
            forall i :: 0 <= i < k && sel[i].Some? ==> accept(i, sel[i].value)
    ensures (forall i :: 0 <= i < k ==> Run(valid, accept, k).sel[i].None?) ==>
              Run(valid, accept, k).bound == |valid|
  {
    var sel := Run(valid, accept, k).sel;
    forall i1, i2 | 0 <= i1 < i2 < k && sel[i1].Some? && sel[i2].Some?
      ensures sel[i2].value <= sel[i1].value
    {
      SelectionsNonIncreasing(valid, accept, i1, i2, k);
    }
    forall i | 0 <= i < k && sel[i].Some?
      ensures accept(i, sel[i].value)
    {
      SelectionIsStepFromCurrentBound(valid, accept, i, k);
    }
    if forall i :: 0 <= i < k ==> sel[i].None? {
      NoSelectionKeepsBound(valid, accept, k);
    }
  }

  /** While no sample has found a solution, the bound stays at the grid size. */
  lemma {:induction false} NoSelectionKeepsBound(valid: seq<bool>, accept: Oracle, k: nat)
    requires k <= |valid|
    requires forall i :: 0 <= i < k ==> Run(valid, accept, k).sel[i].None?
    ensures Run(valid, accept, k).bound == |valid|
  {
    if k > 0 {
      var s := Run(valid, accept, k - 1);
      var r := Step(valid, accept, k - 1, s.bound);
      var t := Run(valid, accept, k);
      assert t == State(r.bound, s.sel + [r.pick], s.probes + r.probes);
      assert t.sel[k - 1] == r.pick;
      forall i | 0 <= i < k - 1
        ensures s.sel[i].None?
      {
        assert t.sel[i] == s.sel[i];
      }
      NoSelectionKeepsBound(valid, accept, k - 1);
    }
  }
}
