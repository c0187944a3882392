# Oil-market SVAR: the discrete logic around the numerics

This project models, in Dafny, the sequential and combinatorial logic of a
Python pipeline that builds a monthly oil-market dataset, picks a VAR lag
order and identifies structural shocks by sign restrictions. The numerics
themselves (VAR fitting, impulse responses, Ljung–Box tests, random
orthonormal matrices) belong to statsmodels and numpy. They enter the model
as inputs or as function-typed oracles.

- `svar_sign.dfy` (module `SvarSign`): the rejection sampler of `main`. A
  `while` loop draws a rotation, right-multiplies every horizon of the
  reduced-form impulse-response tensor by it, and runs the short-circuiting
  nested sign check. It stops after 200 accepted draws or 20000 tries, and
  an empty result is an error. The n-th rotation is `rotation(n)`.
- `lag_selection.dfy` (module `LagSelection`):
  - the stability test;
  - the min-of-mins Ljung–Box aggregation (a loop);
  - the `p = 1..p_max` table-building loop, with the fit as an oracle `fit(p)`;
  - the lag-order decision rule;
  - the missing-column check of the loader.
- `build_dataset.dfy` (module `BuildDataset`):
  - strip and lower-case;
  - the twelve-entry Italian→English month-token rewrite as a loop of replace-all passes;
  - comma removal;
  - the jet-fuel header skip and first-comma split;
  - month-start normalisation;
  - the seven inner joins, the date-range filter and the date sort, over integer date keys.
- `sequences.dfy` (`Sequences`) and `wrappers.dfy` (`Wrappers`): order,
  uniqueness and subsequence facts, and `Option`/`Result`.

Two details of the sampler:
- With `N_ACCEPT == 0` the loop body never runs, and the empty-result check
  (svar_sign.py:76-77) raises "No accepted draws". The error message carries
  no draw count.
- The sampler rotates `res.irf(H).irfs`, the non-orthogonalised responses.
  This does not affect the model, where the tensor is an input.

## Model

| member | source | states |
|---|---|---|
| SvarSign.RotateMatrix | python/src/oil_svar/var/svar_sign.py:59 | the product of two k×k matrices is k×k, and entry (i,c) is the row–column sum Σ_j m[i][j]·q[j][c] |
| SvarSign.Rotate | python/src/oil_svar/var/svar_sign.py:59 | the einsum keeps the shape (H+1, k, k), and entry [h][i][c] is Σ_j irf[h][i][j]·Q[j][c] |
| SvarSign.RotateByIdentity | python/src/oil_svar/var/svar_sign.py:59 | rotating by the identity returns the reduced-form tensor unchanged |
| SvarSign.Sign | python/src/oil_svar/var/svar_sign.py:65 | numpy's sign is in {-1, 0, 1}; it is 0 exactly for 0 and 1 exactly for positive values |
| SvarSign.CheckSigns | python/src/oil_svar/var/svar_sign.py:61-71 | the three nested loops with breaks end with `ok` true iff every restricted cell has the required sign at every horizon below CHECK_H |
| SvarSign.ZeroEntryRejected | python/src/oil_svar/var/svar_sign.py:65 | a zero response in a cell restricted to +1 or -1 makes the draw fail |
| SvarSign.NoHorizonsAcceptsAll | python/src/oil_svar/var/svar_sign.py:62 | with CHECK_H = 0 every draw passes |
| SvarSign.AcceptedAmong | python/src/oil_svar/var/svar_sign.py:53-74 | the tensors accepted among the first n draws, in draw order; at most n of them |
| SvarSign.AcceptedStep | python/src/oil_svar/var/svar_sign.py:57-74 | one more draw appends its rotated tensor to the accepted list exactly when that tensor passes the check, and otherwise leaves the list as it was |
| SvarSign.AcceptedSatisfy | python/src/oil_svar/var/svar_sign.py:73-74 | every accepted tensor satisfies all restrictions and is the rotation of the reduced-form tensor by one of the draws made |
| SvarSign.AcceptedPrefix | python/src/oil_svar/var/svar_sign.py:73-74 | later draws only append, so the accepted list after m draws is a prefix of the list after n ≥ m draws |
| SvarSign.NoneAccepted | python/src/oil_svar/var/svar_sign.py:76 | nothing is accepted among n draws iff none of the n rotated tensors passes |
| SvarSign.RunSampler | python/src/oil_svar/var/svar_sign.py:53-74 | on exit draws ≤ N_DRAWS and accepted ≤ N_ACCEPT; one of the two bounds is reached; accepted ≤ draws; no draw is made when either bound is 0; the accepted list is exactly the passing rotations in draw order; the loop never stopped early |
| SvarSign.SatisfiesAll | python/src/oil_svar/var/svar_sign.py:61-71 | the condition the nested check decides: every restricted cell has its sign at every horizon below CHECK_H; with no restrictions every draw passes |
| SvarSign.Identify | python/src/oil_svar/var/svar_sign.py:53-77 | an error is raised iff N_ACCEPT = 0 or no draw among N_DRAWS passes; otherwise between 1 and N_ACCEPT tensors are returned, all satisfying the restrictions, exactly the passing rotations of the draws made, with fewer than N_ACCEPT accepted before each draw and one of the two bounds reached |
| SvarSign.DefaultRestrictions | python/src/oil_svar/var/svar_sign.py:19-32 | the configured SIGNS fit a four-variable tensor of 31 horizons, and at CHECK_H = 1 the check is exactly the six strict sign conditions on horizon 0 |
| SvarSign.AcceptedMeetConfigured | python/src/oil_svar/var/svar_sign.py:19-32 | every tensor the configured sampler accepts meets the six strict horizon-0 conditions (`ConfiguredSigns`) that the configured SIGNS amount to |
| SvarSign.IdentifyConfigured | python/src/oil_svar/var/svar_sign.py:19-32 | with the script's constants: an error iff none of the 20000 draws passes; otherwise between 1 and 200 accepted tensors, exactly the passing rotations in draw order, each meeting the six horizon-0 sign conditions, with fewer than 200 accepted before each draw and one of the two bounds reached |
| LagSelection.ModulusSquared | python/src/oil_svar/var/lag_selection.py:35 | the squared modulus is never negative |
| LagSelection.IsStableAsWritten | python/src/oil_svar/var/lag_selection.py:33-36 | `is_stable` as written: true iff every reported root has modulus strictly below 1, and true for no roots |
| LagSelection.IsStable | python/src/oil_svar/var/lag_selection.py:33-36 | the corrected test: true iff every reported root has modulus strictly above 1 |
| LagSelection.RootsOf | python/src/oil_svar/var/lag_selection.py:35 | the reported roots are, one for one, the reciprocals of the companion-matrix eigenvalues |
| LagSelection.ReciprocalModulus | python/src/oil_svar/var/lag_selection.py:35 | \|1/z\|²·\|z\|² = 1 |
| LagSelection.ReciprocalInsideOutside | python/src/oil_svar/var/lag_selection.py:35 | \|1/z\| > 1 iff \|z\| < 1, and \|1/z\| < 1 iff \|z\| > 1 |
| LagSelection.StabilityFromEigenvalues | python/src/oil_svar/var/lag_selection.py:33-36 | the corrected test holds iff every eigenvalue is inside the unit circle; the test as written holds iff every eigenvalue is outside it |
| LagSelection.StableProcessRejectedAsWritten | python/src/oil_svar/var/lag_selection.py:33-36 | y_t = 0.5·y_{t-1} + e_t has root 2; the test as written rejects it and the corrected test accepts it |
| LagSelection.SeqMin | python/src/oil_svar/var/lag_selection.py:43 | the minimum of a non-empty column is one of its elements and ≤ all of them |
| LagSelection.MinLjungBoxPval | python/src/oil_svar/var/lag_selection.py:38-44 | error iff there are no residual columns; otherwise the value is one of the p-values and ≤ every p-value of every column |
| LagSelection.SelectP | python/src/oil_svar/var/lag_selection.py:46-58 | for a given stability test: one row per p = 1..p_max in that order, none when p_max < 1; each row holds that test's verdict on fit(p)'s roots and the min-of-mins of fit(p); an error iff some fit has no residual columns |
| LagSelection.SelectPAsWritten | python/src/oil_svar/var/lag_selection.py:46-58 | `select_p` as written: the KeyError of `load_all_d` (line 47) comes first when a configured column is absent; otherwise the sweep's table, with the Stable column computed by `is_stable` as written (line 52) |
| LagSelection.SelectPCorrected | python/src/oil_svar/var/lag_selection.py:46-58 | the same load and sweep with the corrected stability test in the Stable column |
| LagSelection.FirstPassing | python/src/oil_svar/var/lag_selection.py:61-63 | the index of the first row that is stable with p-value strictly above alpha, or none when no row passes |
| LagSelection.FirstArgMax | python/src/oil_svar/var/lag_selection.py:65 | `idxmax`: an index of a maximal p-value, earlier than which every p-value is strictly smaller |
| LagSelection.ChooseP | python/src/oil_svar/var/lag_selection.py:60-66 | an error iff the table is empty; the result is the p of a row; the first passing row wins; with no passing row, the first row with the largest p-value wins |
| LagSelection.ChoosePInRange | python/src/oil_svar/var/lag_selection.py:46-66 | on the sweep's table a value exists iff p_max ≥ 1, lies in [1, p_max], and is the smallest passing p when one passes |
| LagSelection.ThresholdIsStrict | python/src/oil_svar/var/lag_selection.py:61 | a p-value equal to alpha does not pass: with every row on the threshold the first row is chosen |
| LagSelection.DefaultChoiceInRange | python/src/oil_svar/var/lag_selection.py:18-20 | with P_MAX = 15 and ALPHA = 0.05, the sweep's table always yields a lag order in [1, 15] |
| LagSelection.AsWrittenPicksExplosiveOrder | python/src/oil_svar/var/lag_selection.py:46-66 | with roots [2.0] at p = 1 and [0.5] at p = 2 and p-values 0.5 and 0.9, the table as written chooses 2 and the corrected table chooses 1 |
| LagSelection.MissingColumnsOf | python/src/oil_svar/var/lag_selection.py:28 | a column is listed iff it is configured and absent; the list keeps the configuration order and lists each absent column as often as it is configured |
| LagSelection.LoadAllD | python/src/oil_svar/var/lag_selection.py:28-31 | KeyError iff some configured column is absent, carrying exactly the missing list; otherwise the configured columns in order |
| LagSelection.DefaultColumnsLoad | python/src/oil_svar/var/lag_selection.py:12-17 | with the four configured columns, loading succeeds iff all four are present |
| LagSelection.RunLagSelection | python/src/oil_svar/var/lag_selection.py:68-74 | the script's run with the configuration of lines 9-20: KeyError with the missing list iff a configured column is absent; otherwise 15 rows with the as-written Stable column and the min-of-mins of fit(p), and the chosen order is `choose_p` of that table at 0.05: in [1, 15], the smallest passing order when one passes, else the first largest p-value |
| BuildDataset.LeadingSpaces | python/src/oil_svar/build_dataset.py:89 | the leading run of whitespace ends at the first non-space character |
| BuildDataset.TrailingStart | python/src/oil_svar/build_dataset.py:89 | the trailing run of whitespace starts just after the last non-space character |
| BuildDataset.Strip | python/src/oil_svar/build_dataset.py:89 | the result is a slice of the input with only whitespace cut from either end, and it neither starts nor ends with whitespace |
| BuildDataset.StripUnpadded | python/src/oil_svar/build_dataset.py:89 | text that neither starts nor ends with whitespace is its own strip |
| BuildDataset.Lower | python/src/oil_svar/build_dataset.py:89 | lower-casing keeps the length and maps every character through the ASCII case rule |
| BuildDataset.NormalizeIdempotent | python/src/oil_svar/build_dataset.py:89 | stripping and lower-casing a second time changes nothing |
| BuildDataset.ReplaceAll | python/src/oil_svar/build_dataset.py:98 | `str.replace` with a non-empty pattern: a replacement as long as the pattern keeps the text's length, and a replacement at least as long never shortens it |
| BuildDataset.ReplaceAllNoMatch | python/src/oil_svar/build_dataset.py:98 | a replace-all pass leaves text without the pattern unchanged |
| BuildDataset.ReplaceTokenStep | python/src/oil_svar/build_dataset.py:98 | on "w-d" with a three-letter w and a dash-free d, one pass rewrites w exactly when w is the pattern's token |
| BuildDataset.RewriteTokens | python/src/oil_svar/build_dataset.py:91-98 | the fold of the table's replace-all passes keeps the length of the text, each token pattern and its replacement both being four characters |
| BuildDataset.RewriteOneDate | python/src/oil_svar/build_dataset.py:96-98 | the fold of replace-all passes over "w-d" rewrites the token alone, as the fold over the table translates the bare token |
| BuildDataset.TranslatesEntry | python/src/oil_svar/build_dataset.py:91-98 | in a table where no later entry rewrites an earlier key or value, the fold sends each key to its value and leaves each value fixed |
| BuildDataset.MonthTableTranslations | python/src/oil_svar/build_dataset.py:91-98 | each of the twelve Italian tokens goes to its English token, and every English token is fixed |
| BuildDataset.MonthRewrite | python/src/oil_svar/build_dataset.py:89-98 | strip, lower and the month rewrite never lengthen the date text |
| BuildDataset.NormalizeMonthText | python/src/oil_svar/build_dataset.py:89-98 | the loop over the table ends with the left fold, in table order, of the replace-all passes applied to the stripped, lower-cased text |
| BuildDataset.NormalDateText | python/src/oil_svar/build_dataset.py:89 | "w-YYYY" with a lower-case token and digits is unchanged by strip and lower |
| BuildDataset.ItalianMonthRewritten | python/src/oil_svar/build_dataset.py:89-98 | "<it>-YYYY" becomes "<en>-YYYY" for each of the twelve table entries |
| BuildDataset.EnglishMonthUnchanged | python/src/oil_svar/build_dataset.py:89-98 | an English "<en>-YYYY" is left unchanged, including the identities feb, mar, apr and nov |
| BuildDataset.MonthRewriteNormalizesFirst | python/src/oil_svar/build_dataset.py:89 | surrounding whitespace and letter case are gone before any token is rewritten |
| BuildDataset.RemoveCommas | python/src/oil_svar/build_dataset.py:39 | no comma remains; every other character keeps its count; the kept characters are a subsequence of the input |
| BuildDataset.RemoveCommasAppend | python/src/oil_svar/build_dataset.py:39 | comma removal distributes over concatenation |
| BuildDataset.RemoveCommasNoComma | python/src/oil_svar/build_dataset.py:39 | text without commas is unchanged |
| BuildDataset.RemoveCommasIsReplace | python/src/oil_svar/build_dataset.py:39 | comma removal is exactly the replace-all pass of "," by the empty string |
| BuildDataset.FirstComma | python/src/oil_svar/build_dataset.py:112 | the split point has no comma before it and is a comma unless it is the end |
| BuildDataset.SplitFirstComma | python/src/oil_svar/build_dataset.py:112-113 | the date part has no comma, there is a value iff the line has a comma, and date + "," + value gives back the line |
| BuildDataset.ContainsIgnoreCase | python/src/oil_svar/build_dataset.py:110 | the case-insensitive containment test: an empty pattern is always contained, and a contained pattern is no longer than the text |
| BuildDataset.JetFuelBody | python/src/oil_svar/build_dataset.py:110-111 | the first line is dropped iff it contains "Datetime" ignoring case; nothing else changes |
| BuildDataset.ReadJetFuelLines | python/src/oil_svar/build_dataset.py:109-113 | an empty column is an error; an error iff no remaining line has a comma; otherwise one split per remaining line, each rebuilding its line |
| BuildDataset.MonthStart | python/src/oil_svar/build_dataset.py:25-27 | year and month are kept; day 1 and midnight |
| BuildDataset.MonthStartProperties | python/src/oil_svar/build_dataset.py:25-27 | month-start is idempotent, and two timestamps map alike iff they share year and month |
| BuildDataset.Repeat | python/src/oil_svar/build_dataset.py:136 | n copies of a key hold that key n times and no other |
| BuildDataset.InnerJoin | python/src/oil_svar/build_dataset.py:136 | every key of an inner join is a key of both sides |
| BuildDataset.InnerJoinCount | python/src/oil_svar/build_dataset.py:136 | an inner join holds each key (left count)·(right count) times |
| BuildDataset.InRange | python/src/oil_svar/build_dataset.py:144 | the filter keeps exactly the keys in [start, end], with their counts |
| BuildDataset.Insert | python/src/oil_svar/build_dataset.py:145 | inserting adds exactly one element |
| BuildDataset.InsertSorted | python/src/oil_svar/build_dataset.py:145 | insertion keeps a sorted sequence sorted |
| BuildDataset.SortKeys | python/src/oil_svar/build_dataset.py:145 | sorting is a permutation |
| BuildDataset.SortKeysSorted | python/src/oil_svar/build_dataset.py:145 | sorting gives ascending order |
| BuildDataset.JointCountPositive | python/src/oil_svar/build_dataset.py:136-142 | a key survives the joins iff every series has it |
| BuildDataset.JointCountAtMostOne | python/src/oil_svar/build_dataset.py:136-142 | with unique dates in every series no key is joined twice |
| BuildDataset.JoinAll | python/src/oil_svar/build_dataset.py:136-142 | every key surviving the seven joins is in all eight series |
| BuildDataset.JoinAllCount | python/src/oil_svar/build_dataset.py:136-142 | after the seven joins a key occurs the product of its counts in the eight series |
| BuildDataset.Aligned | python/src/oil_svar/build_dataset.py:136-145 | the date column after joins, filter and sort is in ascending order |
| BuildDataset.AlignedCount | python/src/oil_svar/build_dataset.py:136-145 | after joins, filter and sort a key occurs the joint count of times if in range and not at all otherwise |
| BuildDataset.AlignedMembers | python/src/oil_svar/build_dataset.py:136-145 | a date is in the aligned table iff it is in [start, end] and in all eight series |
| BuildDataset.AlignedStrict | python/src/oil_svar/build_dataset.py:136-145 | with unique dates in every series the aligned dates strictly increase |
| BuildDataset.AlignDates | python/src/oil_svar/build_dataset.py:136-145 | the straight-line merges, filter and sort give ascending dates that are exactly the in-range intersection with joint multiplicities, strictly increasing when each series has unique dates |
| BuildDataset.MonthKey | python/src/oil_svar/build_dataset.py:21-22 | the integer key of a month start encodes its year and month: key div 12 is the year and key mod 12 is the month less one |
| BuildDataset.ConfiguredRangeByKey | python/src/oil_svar/build_dataset.py:21-22 | for a month-start timestamp, lying between 1990-01-01 and 2024-12-31 is the same as its key lying between the keys of those bounds |
| BuildDataset.AlignConfigured | python/src/oil_svar/build_dataset.py:136-145 | over the configured range the aligned dates ascend and are exactly the month keys from January 1990 to December 2024 present in all eight series, each with its joint multiplicity; strictly increasing when every series has unique dates |

## Left out

- Fitting, impulse responses, roots, residuals and Ljung–Box tests are foreign library numerics. They are inputs: the tensor `irfRf`, the oracles `rotation` and `fit`.
- `random_orthonormal` (numpy's RNG and QR) is an oracle. Neither orthonormality nor the Haar distribution of its output is assumed.
- The median and percentile aggregation, `np.save` and every `print` are floating point, file output and console output.
- File reading and writing (`read_csv`, `read_excel`, `read_parquet`, `to_parquet`, `mkdir`) are I/O.
- `pd.to_datetime` and `pd.to_numeric` parsing are library parsing. `dropna` and NaN semantics are library behaviour, as is `np.sign` of NaN.
- The float transforms of the builder are floating point: logs, differences, z-scores and the real-price ratio.
- The joins carry date keys only. The payload columns they carry along are not modelled.
- The thin fitting scripts var_fit.py, var_fit_final.py and irf_fevd.py have no logic of their own and are not part of this model.
- SvarSign.CheckSigns: restrictions that index outside the tensor, and CHECK_H beyond the horizon count, are excluded by its precondition. numpy would raise or wrap a negative index there. The configured constants satisfy the precondition (SvarSign.DefaultRestrictions).
- SvarSign.RunSampler: requires every drawn rotation to be k×k. This is the shape `random_orthonormal(k)` returns.
- LagSelection.SelectP: the fit oracle cannot fail. A statsmodels exception during a fit is not modelled.
- LagSelection.MinLjungBoxPval: every residual column is assumed to have at least one p-value, because `lb_lags` is at least 1.
- LagSelection.ChooseP: p-values are reals, so the NaN handling of `idxmax` and of the comparison is not modelled.
- BuildDataset.Strip: only ASCII whitespace is stripped. Python also strips Unicode spaces.
- BuildDataset.Lower: only ASCII letters are lower-cased. Python's case mapping is Unicode.
- BuildDataset.ReplaceAll: requires a non-empty pattern. Every pattern the rewrite uses is four characters long.
- BuildDataset.ContainsIgnoreCase: ASCII case folding of a literal pattern. pandas folds case in its regular-expression engine.
- BuildDataset.ReadJetFuelLines: starts from the column after `dropna().astype(str)`. It stops at the split and does not model the date and number parsing that follows.
- BuildDataset.MonthStart: timestamps are (year, month, day, seconds) values. Calendar validity and pandas' coercion of unparseable dates to NaT are not modelled.
- BuildDataset.AlignDates: dates are integer keys ordered like the timestamps they stand for. For month starts the key is BuildDataset.MonthKey, and BuildDataset.ConfiguredRangeByKey shows that the configured bounds 1990-01-01 and 2024-12-31 select the same months on keys as on timestamps.
- All real-valued arithmetic is exact. The source computes in IEEE-754 float64: the rotation's sums of products (svar_sign.py:59) round, and a response within rounding of zero can have its `np.sign` (svar_sign.py:65) decided by the rounding. The model does not capture that.
- LagSelection.RootsOf: requires every companion eigenvalue to be non-zero. For a zero eigenvalue statsmodels' `** -1` gives an infinite root, which the model does not represent.

## Findings

| source | as written | input that shows it | evidently intended | confidence | as-written member | corrected member |
|---|---|---|---|---|---|---|
| python/src/oil_svar/var/lag_selection.py:33-36 | `is_stable` accepts when every entry of `res.roots` has modulus below 1. statsmodels reports the roots of the lag polynomial, the reciprocals of the companion eigenvalues, and a stable VAR has them outside the unit circle | VAR(1) y_t = 0.5·y_{t-1} + e_t: eigenvalue 0.5, root 2.0, so the stable process is rejected (and an explosive one accepted) | every companion eigenvalue inside the unit circle, that is every root outside it | not executed; relies on statsmodels' `roots` being the reciprocal eigenvalues | LagSelection.IsStableAsWritten, LagSelection.StableProcessRejectedAsWritten, LagSelection.SelectPAsWritten, LagSelection.AsWrittenPicksExplosiveOrder | LagSelection.IsStable, LagSelection.StabilityFromEigenvalues, LagSelection.SelectPCorrected |
