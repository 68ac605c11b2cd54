# subradar surface inversion: the correlation-length grid search

`power2srf_norminc` in subradar's `invert.py` estimates surface parameters from
radar echoes. It takes an observed coherent power `pc` and incoherent power
`pn` at normal incidence and returns three arrays of length `n`:

- the permittivity grid `ep`;
- for each permittivity, the rms height `sh` that reproduces `pc`;
- for each permittivity, the correlation length `cl` picked from a
  logarithmic grid, or NaN when none is found.

For every permittivity whose rms height is non-zero, the search scans
correlation-length indices downward from a shared bound `jn`. It calls the
forward predictor `srf2power_norminc` at each index. It accepts the first
index whose predicted incoherent power is finite and below `pn`. It then
records that correlation length and lowers `jn` to the accepted index plus
one.

This project models that search. The forward predictor becomes an
uninterpreted function of the grid indices. The rms heights become values
that are either NaN, infinite or finite. Each correlation length is
represented by its grid index.

- `floats.dfy`, module `Floats`: the IEEE-754 view the search needs. This
  covers NaN, ±Inf, the `<` comparison, and the acceptance test
  `tmp < pn and not isinf(tmp)`. It also covers NaN masking of the rms
  heights and the resulting "has a roughness solution" flag.
- `grid_search.dfy`, module `GridSearch`: the nested loop on indices.
  - `ScanDown`, `Step` and `Run` form a functional reference. It records
    each permittivity's selection, the shared bound, and every
    forward-predictor call as a `Probe`.
  - `ScanCorrelation` and `SearchGrid` are the loops themselves. They use a
    `break`, a downward `for`, and the literal `jn > n` clamp. They are
    proved equal to the reference.
  - The lemmas cover bounds, selection, monotonicity and the probe window.
    They also characterise exactly when the shared bound changes the result.
- `invert.dfy`, module `Invert`: `Power2Srf`, the routine's output assembled
  from the masked rms heights and the selected grid values.

Two facts about the code that the model makes explicit:

- **The shared bound `jn` is not only a speed-up.** Searching each
  permittivity from the top of the grid gives the same result exactly when
  those top-of-grid choices are already non-increasing across permittivities
  (`GridSearch.SharedBoundMatchesIndependentIff`).
  `GridSearch.SharedBoundCanLoseSolutions` is a two-sample case where the
  shared bound loses a solution.
- **`power2srf_norminc` never reads its `db` parameter.** `pc` is always
  converted from dB (invert.py:68). The forward predictor is called with its
  default `db=True` and its default `kind` (invert.py:86-87), so `pn` is
  always compared in dB.

## Model

| member | source | states |
|---|---|---|
| Floats.Accepts | invert.py:91 | The acceptance test holds exactly when the prediction is finite and either the target is +Inf or the prediction is a finite number below it. A NaN on either side rejects, and so does a -Inf prediction. |
| Floats.MaskNaN | invert.py:76 | Masking keeps the length and leaves no NaN. NaN entries become 0 and all other entries, infinities included, are unchanged. |
| Floats.Validity | invert.py:75-84 | A permittivity sample is searched (`sh[i] != 0` after masking) exactly when its raw rms height is neither NaN nor zero. |
| GridSearch.ScanDown | invert.py:85-96 | The downward scan returns an accepted index below the bound with no accepted index between it and the bound. If it returns nothing, no index below the bound is accepted. |
| GridSearch.Step | invert.py:84-96 | One outer iteration finds a solution exactly when the sample is valid and some index below the current bound is accepted. The pick is the largest accepted index below the bound. On success the bound becomes pick + 1, which makes the clamp a no-op; otherwise the bound is unchanged. Invalid samples make no forward-predictor call. The calls go bound-1, bound-2, ..., down to the pick (or down to 0). |
| GridSearch.Run | invert.py:78-96 | After k samples there are k selections and the shared bound is at most n. |
| GridSearch.RunStepExtends | invert.py:81-96 | One more outer iteration only appends a selection and calls, and never raises the bound. |
| GridSearch.RunPrefix | invert.py:80-96 | Later states extend earlier ones: selections are never revised, the call log only grows, and `jn` never increases across the outer loop. |
| GridSearch.SelectionIsStepFromCurrentBound | invert.py:85-96 | At any later point, the selection for sample i is the outcome of one step from the bound that was current when i was reached. It is therefore the largest index accepted strictly below that bound, or NaN with the bound unchanged. |
| GridSearch.SelectionsNonIncreasing | invert.py:85-92 | For i1 < i2 that both find a solution, the index selected for i2 is at most the one selected for i1. |
| GridSearch.ProbesBelowCurrentBound | invert.py:85-87 | Every forward-predictor call for sample i uses a correlation index below the `jn` that was current when sample i was reached. |
| GridSearch.NoSelectionKeepsBound | invert.py:80-92 | While no sample has found a solution, `jn` stays at n. |
| GridSearch.ScanDownNarrowed | invert.py:85 | A scan from a lower bound returns the top-of-grid answer whenever that answer lies below the lower bound or does not exist. |
| GridSearch.SharedAgreesSoFar | invert.py:80-96 | If the top-of-grid choices are non-increasing, the first k shared-bound selections equal the independent ones. Every later top-of-grid choice then lies below the current bound. |
| GridSearch.SharedBoundMatchesIndependentIff | invert.py:80-96 | The shared-bound result equals the result of searching every sample from the top of the grid if and only if the top-of-grid choices are non-increasing across samples. |
| GridSearch.SharedBoundCanLoseSolutions | invert.py:85-96 | With two valid samples accepting only (0,0) and (1,1), the shared search gives [0, NaN] while the independent search gives [0, 1]. |
| GridSearch.ScanCorrelation | invert.py:85-96 | The inner loop stops at an accepted index below `jn` and every index above it was rejected. If nothing is accepted, every index below `jn` was rejected. The calls run jn-1 downward to the stopping index. |
| GridSearch.SearchGrid | invert.py:78-98 | The nested loop returns n selections. Invalid samples stay NaN. Every selection is an accepted index below n, and selections are non-increasing in i. Every call is for a valid sample and an index below n. The final `jn` is at most n, at least 1 and at most (selection + 1) once anything is found, and n otherwise. The `jn > n` clamp never fires. The loop's selections, calls and bound equal the reference's. |
| GridSearch.RunInvariant | invert.py:78-96 | After any number of outer iterations, invalid samples have no selection. Every selection s satisfies s < n and 1 <= `jn` <= s + 1. Every forward-predictor call so far was for a valid, already reached sample and a correlation index below n. |
| GridSearch.RunSelections | invert.py:80-96 | After any number of samples, the selections made are accepted and non-increasing in i, and `jn` is still n if none was made. |
| Invert.Power2Srf | invert.py:63-98 | The output keeps `ep` as it is, NaN or infinite entries included, and has three arrays of length n. `sh` is the NaN-masked input. A zero `sh` leaves `cl` NaN. Where the reference selects index j, `cl[i]` is the grid value `cl[j]` stored as it is, even if that value is NaN or infinite. Where it selects nothing, `cl[i]` is NaN. Every non-NaN `cl[i]` is a grid value whose prediction is accepted. For a finite, non-decreasing grid the found correlation lengths are non-increasing in i. |

## Left out

- `srf2power_norminc` (invert.py:16-60), the forward predictor, is left out. It resolves a scattering model by name into code that is not part of this model, integrates with `scipy.integrate.quad`, and is floating-point arithmetic. It appears only as the function `predict(i, j)` passed to `Invert.Power2Srf`.
- A failure inside the forward predictor, such as an unknown model or approximation name, aborts the inversion in the code. The oracle here is total, so no failure path is modelled.
- The closed-form rms height (invert.py:69-75) is floating-point work on the `utils.R` Fresnel helper and the `Signal` wavenumber, neither of which is part of this model. The raw rms heights are an input, and only the NaN masking at invert.py:76 is modelled.
- The grids `ep = linspace(...)` and `cl = 10**linspace(...)` (invert.py:71, invert.py:73) are inputs. Both grids' values are taken as given, so an overflowed (`inf`) or NaN value in `ep` or `cl` passes into the output unchanged. The monotonicity result on correlation lengths assumes the grid is finite and non-decreasing.
- The dB conversions (invert.py:59, invert.py:68) are floating-point arithmetic and are left out. `pn` and the predictions are dB values taken as given.
- The verbose printing (invert.py:82-83, invert.py:88-90) and the unused matplotlib import (invert.py:10) have no effect on the result and are left out.
- Signed zero is not modelled: `Finite(0.0)` stands for both +0.0 and -0.0, which `sh[i] != 0` treats alike.
- Invert.Power2Srf: does not return the log of forward-predictor calls or the final `jn`, since the source does not return them. Both are stated on GridSearch.SearchGrid, which it calls.
