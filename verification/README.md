# Device identity service: verified core

A Dafny model of the parts of the device identity service whose correctness is not visible from reading
one function: the fleet analytics, the two Redis rate limiters, the zkVM guest programs, the Noir circuit,
and the secure-element provisioning protocol. `dafny verify dfyconfig.toml` checks everything.

## What is modelled

**Fleet analytics (Julia).** `AnomalyDetection` runs the z-score pass, the interquartile pass, the merge
and the report as loops over maps and arrays; `ZScores` and `Percentiles` hold what one column computes.
`Attestations` groups timestamps by device, computes interval statistics, and applies the frequency and
irregularity rules. `Fingerprints` ranks stored fingerprints by cosine similarity. Numbers are exact reals;
the square root is any function that squares back to its non-negative argument (`Sums.IsSqrt`). `Rounding`
is the rounding to four or six digits (nearest, ties to even) that the sources apply to stored and listed
numbers; the irregularity rule divides rounded numbers, so there it decides. A sample deviation of one value,
which is not a number in the source, is `None`. Metric columns may have missing values. An index out of
bounds and a dimension mismatch are answers of their own.

**Rate limiters.** `RedisStore` has the two Redis commands on counters with a millisecond clock.
`ProxyLimiter` (one counter per client and aligned 60-second window) and `BackendLimiter` (one counter per
address, started by its first request) are transition systems over a shared store: the clock, each INCR
(answered, failed before, or applied with the answer lost) and each EXPIRE (executed late, or never) are
separate events, and the theorems are about every sequence of events. In the proxy the clock reading that
chooses the key may precede the INCR by any amount (`lag`), and the log keeps both times. Each module also has the request handler as an
uninterrupted method, proved equal to its steps.

**zkVM guest (Rust).** `Fnv` and `Hex` are the 64-bit FNV-1a hash (draft-eastlake-fnv, section 2) and
lower-case base 16 (RFC 4648, section 8) on explicit words and bytes. `Text` has the string operations the
guest uses: UTF-8, splitting, Unicode trimming, ASCII case folding; `Decimals` compares dotted versions as
text and as numbers. `Compliance`, `Credentials` and
`DeviceState` are the three verifiers.

**Circuit (Noir).** `Circuits` states the constraints over the integers modulo any p > 5, with the hash an
arbitrary function, and a reduced relation without the constraints that hold of every input.

**Provisioning (Go).** `Provisioning` interleaves any number of enrollment, provisioning and status calls,
each split at its Redis and database steps, with passing time. The challenge hash is an arbitrary function.
The service is also a class whose methods run one call without interruption.

`Sequences`, `Sums` and `Modular` hold counting, reordering, sorting, sums and remainders.

## Where the code differs from what it says

* The z-score and frequency thresholds can never fire with ten or fewer devices (`ZScores.RuleCanFireIff`,
  `Attestations.FrequencyCanFireIff`), and the detector can report a device exactly from four devices on
  (`AnomalyDetection.DetectorCanReportIff`).
* Missing values are dropped before scoring, but scores are read back by row: every score belongs to its own
  device exactly when the missing values come last (`AnomalyDetection.OwnScoresIff`). One missing value can
  report a device that has no value (`AnomalyDetection.DeviceWithoutValueIsReported`) or make the detector
  fail (`AnomalyDetection.MissingValueFails`).
* The irregularity rule compares rounded numbers. On exact numbers it would need six attestations
  (`Attestations.SpreadOfNonNeg`); as written it can fire exactly from five on
  (`Attestations.IrregularityCanFireIff`).
* `anomaly_detection.jl` declares metrics as `Symbol` but selects them as `String`; the model uses one type.
* `rate_limit.rs` assigns the mapped result of EXPIRE to the unit type; the model follows the evident intent,
  that an error of EXPIRE is ignored.
* The proxy counts exactly as long as no INCR reaches an expired counter (`ProxyLimiter.CountsExactIff`); one
  that does starts it again. Delays of up to L milliseconds keep the 60-second bound exactly when L is 0
  (`ProxyLimiter.HarmlessLagIff`).
* One lost EXPIRE in the backend can lock an address out for ever (`BackendLimiter.LockoutIsReached`). Exactly
  the spent counters without a deadline and without a pending EXPIRE do so (`BackendLimiter.LockedOutIff`).
* The second known firmware hash has 63 digits, so no SHA-256 digest matches it
  (`Compliance.OnlyTwoDigestsAreKnown`). The minimum version is compared as text, which differs from the
  numeric order in exactly two cases (`Compliance.MinimumIsNumericIff`).
* The credential check verifies at time 0, so only windows starting at 0 contain it (`Credentials.AcceptedIff`).
* The circuit does not bind the hardware fingerprint (`Circuits.FingerprintIsFree`), nor the public claim
  outside compliance mode (`Circuits.ClaimIsFreeElsewhere`).
* A challenge is not consumed by one call: overlapping calls can all succeed
  (`Provisioning.OverlappingCallsBothSucceed`), and after the DEL exactly those can that had passed their
  checks before it (`Provisioning.SuccessAfterDeleteIff`). The reported status moves only forward exactly when
  enrollment is past its SET (`Provisioning.ForwardIffSettled`).

## Model

| member | source | states |
|---|---|---|
| `ZScores.ZScoreMoments` | julia-analysis/src/anomaly_detection.jl:55-60 | the z-scores of a column sum to 0; their squares sum to n - 1 with spread and to 0 without |
| `ZScores.ZScoreReadsBack` | julia-analysis/src/anomaly_detection.jl:55-61 | mean plus z-score times deviation gives back every value, also for columns without spread |
| `ZScores.ZFlagIff` | julia-analysis/src/anomaly_detection.jl:55-61 | a value is flagged iff it is more than 3 sample deviations from the mean |
| `ZScores.SamuelsonBound` | julia-analysis/src/anomaly_detection.jl:46-64 | n z^2 <= (n - 1)^2 for every value of every column |
| `ZScores.TenDevicesNeverFlag` | julia-analysis/src/anomaly_detection.jl:104 | no column of ten or fewer values has a flagged z-score |
| `ZScores.SpikeIsFlagged` | julia-analysis/src/anomaly_detection.jl:104 | for every n >= 11 one outlier among equal values is flagged |
| `ZScores.RuleCanFireIff` | julia-analysis/src/anomaly_detection.jl:2 | the rule can fire on some column of n values if and only if n >= 11 |
| `ZScores.FewFlagged` | julia-analysis/src/anomaly_detection.jl:97-113 | c flagged devices in one column satisfy 9c < n - 1 |
| `ZScores.AffineInvariance` | julia-analysis/src/anomaly_detection.jl:46-64 | rescaling by a non-zero factor and shifting changes z-scores at most in sign and flags not at all |
| `ZScores.ReorderInvariance` | julia-analysis/src/anomaly_detection.jl:46-64 | z-scores of permuted devices are the permuted z-scores |
| `Percentiles.PercentileInBounds` | julia-analysis/src/anomaly_detection.jl:86-95 | the percentile indexes within bounds if and only if there is one value, or more and 0 <= p <= 100 |
| `Percentiles.PercentileBetween` | julia-analysis/src/anomaly_detection.jl:87-94 | a percentile of sorted values lies between the two values it interpolates |
| `Percentiles.PercentileMonotone` | julia-analysis/src/anomaly_detection.jl:86-95 | percentiles grow with p |
| `Percentiles.PercentileOfEvenValues` | julia-analysis/src/anomaly_detection.jl:88-94 | on evenly spaced values the percentile is the exact fractional position |
| `Percentiles.PercentileOfImage` | julia-analysis/src/anomaly_detection.jl:86-95 | percentiles commute with x -> a x + b |
| `Percentiles.PercentileReversed` | julia-analysis/src/anomaly_detection.jl:86-95 | percentile 100 - p of the reversed values is percentile p |
| `Percentiles.QuartileValues` | julia-analysis/src/anomaly_detection.jl:76-94 | the quartiles interpolate with weight ((n - 1) mod 4) / 4 between the values at (n - 1) / 4 and the next, each from its own end |
| `Percentiles.FencesEncloseQuartiles` | julia-analysis/src/anomaly_detection.jl:76-81 | lower <= q1 <= q3 <= upper, and nothing between the quartiles is flagged |
| `Percentiles.OutsideIff` | julia-analysis/src/anomaly_detection.jl:79-81 | flagged means more than twice the interquartile range from the middle of the quartiles |
| `Percentiles.IqrFlagIff` | julia-analysis/src/anomaly_detection.jl:72-81 | from four values on a value is flagged iff it is more than twice q3 - q1 from the middle of the quartiles; below four none is |
| `Percentiles.FewOutside` | julia-analysis/src/anomaly_detection.jl:75-81 | at most n / 4 + (n - 1) / 4 (integer quotients) of n values are flagged |
| `Percentiles.TailsAreFlagged` | julia-analysis/src/anomaly_detection.jl:75-81 | for every n a column attains that bound, with exactly its two tails flagged |
| `Percentiles.SortOfImage` | julia-analysis/src/anomaly_detection.jl:75 | sorting commutes with increasing affine maps and reverses under decreasing ones |
| `Percentiles.IqrAffineInvariance` | julia-analysis/src/anomaly_detection.jl:66-84 | rescaling by a non-zero factor and shifting changes no interquartile flag |
| `Percentiles.IqrReorderInvariance` | julia-analysis/src/anomaly_detection.jl:66-84 | flags of permuted devices are the permuted flags |
| `Rounding.RoundEvenIsNearest` | julia-analysis/src/anomaly_detection.jl:131 | rounding moves a number by at most half a unit, no integer is nearer, and halfway the result is even |
| `Rounding.Round4Is` | julia-analysis/src/anomaly_detection.jl:131 | four-digit rounding gives a multiple of 0.0001 at most 0.00005 away |
| `Rounding.Round6Is` | julia-analysis/src/fingerprint_similarity.jl:24-25 | six-digit rounding gives a multiple of 0.000001 at most 0.0000005 away |
| `AnomalyDetection.OriginCorrect` | julia-analysis/src/anomaly_detection.jl:49-60 | the k-th score comes from the k-th row with a value, which is row k iff no row up to k is missing |
| `AnomalyDetection.PresentInOrder` | julia-analysis/src/anomaly_detection.jl:49 | every value that is not missing is kept, in row order |
| `AnomalyDetection.ComputeZscores` | julia-analysis/src/anomaly_detection.jl:46-64 | the loop gives every metric exactly the z-scores of its present values |
| `AnomalyDetection.ComputeIqrOutliers` | julia-analysis/src/anomaly_detection.jl:66-84 | the loop gives every metric exactly the interquartile flags of its present values |
| `AnomalyDetection.MergeFlags` | julia-analysis/src/anomaly_detection.jl:97-113 | the in-place counts are the marks of each device; missing columns and rows count nothing |
| `AnomalyDetection.BuildFlaggedDevices` | julia-analysis/src/anomaly_detection.jl:115-145 | fails exactly when a flagged device is beyond a column; else lists the flagged devices in order with their rows, scores rounded |
| `AnomalyDetection.DeviceAnomalies` | julia-analysis/src/anomaly_detection.jl:127-141 | fails exactly beyond a column; else shows exactly the rows with a mark, scores rounded |
| `AnomalyDetection.FlaggedIndicesCorrect` | julia-analysis/src/anomaly_detection.jl:119-120 | the listed positions are exactly those with a positive count, increasing |
| `AnomalyDetection.CountIsMarksShown` | julia-analysis/src/anomaly_detection.jl:97-141 | a device's merged count is the number of marks in its anomalies map, and positive iff the map is non-empty |
| `AnomalyDetection.ReportAgreesWithCounts` | julia-analysis/src/anomaly_detection.jl:97-145 | one entry per device with a positive count; each entry is non-empty and counts the marks it shows |
| `AnomalyDetection.DetectAnomalies` | julia-analysis/src/anomaly_detection.jl:5-34 | each special answer and the bounds failure exactly in its case; else the summary, and one entry per flagged device in order with its marks and rounded scores |
| `AnomalyDetection.KnownMetricsIs` | julia-analysis/src/anomaly_detection.jl:1-9 | the analysed metrics are the columns with one of the four names, in column order |
| `AnomalyDetection.ReportedIff` | julia-analysis/src/anomaly_detection.jl:46-113 | a position is listed iff in some analysed metric its value is more than 3 deviations from the mean or, from four values on, more than 2 (q3 - q1) from the middle of the quartiles |
| `AnomalyDetection.OwnScoresIff` | julia-analysis/src/anomaly_detection.jl:49-60 | every position shows the score of its own device iff no value follows a missing one |
| `AnomalyDetection.CompleteInReach` | julia-analysis/src/anomaly_detection.jl:127-130 | tables without missing values never fail |
| `AnomalyDetection.DeviceWithoutValueIsReported` | julia-analysis/src/anomaly_detection.jl:66-111 | for every n >= 5 a table reports its first device, whose value is missing |
| `AnomalyDetection.MissingValueFails` | julia-analysis/src/anomaly_detection.jl:127-130 | for every n >= 5 a table with one missing value fails |
| `AnomalyDetection.DetectorCanReportIff` | julia-analysis/src/anomaly_detection.jl:51-74 | the detector can report a device of some table of n devices iff n >= 4 |
| `AnomalyDetection.ThreeDevicesAreNeverAnomalous` | julia-analysis/src/anomaly_detection.jl:51-74 | three or fewer devices never produce an entry |
| `AnomalyDetection.TenDevicesOnlyIqr` | julia-analysis/src/anomaly_detection.jl:97-113 | with ten or fewer devices only interquartile marks are counted |
| `AnomalyDetection.UnitsDoNotMatter` | julia-analysis/src/anomaly_detection.jl:46-113 | changing the units of any metrics changes no device's count |
| `AnomalyDetection.OrderDoesNotMatter` | julia-analysis/src/anomaly_detection.jl:46-113 | in a table without missing values permuting the devices permutes the counts |
| `Attestations.DevicesInOrder` | julia-analysis/src/attestation_analysis.jl:63-67 | every device is listed once, in order of first appearance |
| `Attestations.TimesOfIs` | julia-analysis/src/attestation_analysis.jl:63-68 | a device's times are the timestamps of its rows, each as often as it occurs |
| `Attestations.IntervalsAre` | julia-analysis/src/attestation_analysis.jl:80-81 | with the times in ascending order the intervals are the differences of neighbours in seconds |
| `Attestations.GapsOfSorted` | julia-analysis/src/attestation_analysis.jl:80-81 | intervals of sorted times are non-negative and sum to last minus first |
| `Attestations.MeanIntervalIsSpan` | julia-analysis/src/attestation_analysis.jl:80-84 | the mean interval is the covered span in seconds over the number of intervals, rounded |
| `Attestations.StatsAre` | julia-analysis/src/attestation_analysis.jl:69-89 | count, and each stored figure is the four-digit rounding of mean, median, deviation, minimum or maximum of the intervals |
| `Attestations.MedianIsPercentile` | julia-analysis/src/attestation_analysis.jl:85 | the median is the 50th percentile |
| `Attestations.ExtremesBound` | julia-analysis/src/attestation_analysis.jl:87-88 | minimum and maximum are values of the column and bound all of them |
| `Attestations.StatsInOrder` | julia-analysis/src/attestation_analysis.jl:82-89 | minimum, median, mean and maximum are in order after rounding, and not negative |
| `Attestations.SpreadOfNonNeg` | julia-analysis/src/attestation_analysis.jl:84-86 | m intervals satisfy std^2 <= m mean^2 before rounding |
| `Attestations.IrregularIff` | julia-analysis/src/attestation_analysis.jl:215-216 | whatever the statistics: irregular iff the mean is positive and the deviation more than twice the mean |
| `Attestations.IrregularNeedsFive` | julia-analysis/src/attestation_analysis.jl:83-86 | the cv > 2 rule on the rounded values fires only with five or more attestations |
| `Attestations.BurstIsIrregular` | julia-analysis/src/attestation_analysis.jl:215-216 | for every n >= 5 a burst and one later attestation fire it |
| `Attestations.IrregularityCanFireIff` | julia-analysis/src/attestation_analysis.jl:215-216 | it can fire for some device with n attestations if and only if n >= 5 |
| `Attestations.FrequencyIsZScore` | julia-analysis/src/attestation_analysis.jl:194-199 | the frequency rule is the z-score rule on the attestation counts |
| `Attestations.FrequencyCanFireIff` | julia-analysis/src/attestation_analysis.jl:194-207 | it can fire on positive counts of n devices if and only if n >= 11 |
| `Attestations.ComputeAttestationStatistics` | julia-analysis/src/attestation_analysis.jl:62-90 | the loop over groups gives every device the statistics of its own timestamps |
| `Attestations.PerDeviceIs` | julia-analysis/src/attestation_analysis.jl:63-79 | exactly the devices with a row have statistics, with the number of their rows, and figures from two rows on |
| `Attestations.DeviceMeanIs` | julia-analysis/src/attestation_analysis.jl:80-84 | a device's mean is, to four digits, the span of its rows in seconds over the number of its intervals |
| `Attestations.CountsAreRows` | julia-analysis/src/attestation_analysis.jl:192 | the counts are the numbers of rows of the listed devices and add up to the number of rows |
| `Attestations.DetectPatternAnomalies` | julia-analysis/src/attestation_analysis.jl:190-230 | frequency reports in device order, then each irregular device once in any order, and nothing else |
| `Attestations.DetectFrequency` | julia-analysis/src/attestation_analysis.jl:194-209 | exactly the flagged devices are reported, in order |
| `Attestations.FrequencyReportsAre` | julia-analysis/src/attestation_analysis.jl:194-209 | the reports are those of the devices more than 3 deviations out, in order, with their row count, z-score and the rows per device to four digits |
| `Attestations.DetectIrregular` | julia-analysis/src/attestation_analysis.jl:211-227 | exactly the irregular devices are reported, once each |
| `Attestations.IrregularReportIs` | julia-analysis/src/attestation_analysis.jl:214-224 | a report gives the device's stored mean and deviation and their ratio to four digits |
| `Attestations.FewFrequencyReports` | julia-analysis/src/attestation_analysis.jl:194-207 | fewer than one active device in nine is reported, and none with ten or fewer |
| `Attestations.IrregularReportsNeedFive` | julia-analysis/src/attestation_analysis.jl:212-224 | every reported device has at least five rows in the table |
| `Fingerprints.CauchySchwarz` | julia-analysis/src/fingerprint_similarity.jl:44-50 | the inner product is at most the product of the norms, in every dimension |
| `Fingerprints.CosineRange` | julia-analysis/src/fingerprint_similarity.jl:43-51 | the cosine lies in [-1, 1] |
| `Fingerprints.CosineOneIff` | julia-analysis/src/fingerprint_similarity.jl:43-51 | for a non-zero vector the cosine is 1 if and only if the other is a positive multiple of it |
| `Fingerprints.DistanceMeaning` | julia-analysis/src/fingerprint_similarity.jl:53-55 | the squared distance expands into norms and inner product, and is 0 only between equal vectors |
| `Fingerprints.LawOfCosines` | julia-analysis/src/fingerprint_similarity.jl:43-55 | distance and cosine obey the law of cosines |
| `Fingerprints.FindSimilarDevices` | julia-analysis/src/fingerprint_similarity.jl:1-41 | each special answer exactly in its case; otherwise the k nearest, or all, in order: distinct indices from 1, each with the cosine and distance of the fingerprint it names to six digits, and all others after them |
| `Fingerprints.ListedInOrder` | julia-analysis/src/fingerprint_similarity.jl:21-29 | the rounded cosines still descend within [-1, 1], and no rounded distance is negative |
| `Fingerprints.ScoreAll` | julia-analysis/src/fingerprint_similarity.jl:10-16 | every fingerprint is scored once, in storage order |
| `Fingerprints.SortNumbered` | julia-analysis/src/fingerprint_similarity.jl:18 | the stable sort lists every fingerprint once, best first, ties in storage order |
| `Fingerprints.RankedUnique` | julia-analysis/src/fingerprint_similarity.jl:18 | there is only one such listing |
| `Fingerprints.TopK` | julia-analysis/src/fingerprint_similarity.jl:18-29 | the k best are distinct and in order, no omitted one is better, and k is a prefix of k + 1 |
| `Fingerprints.StoredTargetIsFirst` | julia-analysis/src/fingerprint_similarity.jl:10-29 | a stored non-zero target puts a fingerprint of its own direction first, with cosine exactly 1 |
| `Fingerprints.StoredTargetIsListed` | julia-analysis/src/fingerprint_similarity.jl:10-29 | so the first index listed names a fingerprint of the target's direction |
| `RedisStore.Redis.Incr` | rust-proxy/src/rate_limit.rs:46-50 | INCR counts on from a live counter and starts an absent or expired one at 1 without a deadline |
| `RedisStore.Redis.Expire` | rust-proxy/src/rate_limit.rs:53-58 | EXPIRE sets the deadline of a live counter only |
| `ProxyLimiter.WindowKeyInjective` | rust-proxy/src/rate_limit.rs:11-18 | different clients or windows never share a key, even for addresses with colons |
| `ProxyLimiter.RateLimitMiddleware` | rust-proxy/src/rate_limit.rs:43-84 | an uninterrupted request is its INCR step followed by its EXPIRE step; let through iff answered with at most rpm |
| `ProxyLimiter.WindowBounds` | rust-proxy/src/rate_limit.rs:12-16 | window w is the 60000 milliseconds from 60000 w on |
| `ProxyLimiter.OneExpirePerStart` | rust-proxy/src/rate_limit.rs:52-58 | in every run each answered request that started a counter sends one EXPIRE, and no other request sends any |
| `ProxyLimiter.ExpireEndsTheCounter` | rust-proxy/src/rate_limit.rs:52-58 | in every run, after EXPIRE at time d the INCRs of that counter are before d + 60000, and one from then on starts it again |
| `ProxyLimiter.StartsLimit` | rust-proxy/src/rate_limit.rs:43-66 | in every run at most rpm admissions per client and window for each time their counter started |
| `ProxyLimiter.CountsExactIff` | rust-proxy/src/rate_limit.rs:43-58 | in every run the counts are the numbers of INCRs per client and window iff no INCR reached an expired counter |
| `ProxyLimiter.ExactlyTheFirstRpm` | rust-proxy/src/rate_limit.rs:43-84 | without such an INCR a request is admitted iff it is answered and among the first rpm counted for its client and window |
| `ProxyLimiter.WindowLimit` | rust-proxy/src/rate_limit.rs:43-66 | then at most rpm admissions per client and window; without errors exactly min(rpm, requests) |
| `ProxyLimiter.ReadingMinuteLimit` | rust-proxy/src/rate_limit.rs:11-18 | then clock readings in any closed 60 seconds lead to at most 2 rpm admissions, however late their INCRs |
| `ProxyLimiter.PromptIsSafe` | rust-proxy/src/rate_limit.rs:11-58 | an INCR in the window of its clock reading never reaches an expired counter |
| `ProxyLimiter.AnyMinuteLimit` | rust-proxy/src/rate_limit.rs:43-66 | with such INCRs only, at most 2 rpm admissions of a client in any closed 60 seconds |
| `ProxyLimiter.TwiceTheLimitIsReached` | rust-proxy/src/rate_limit.rs:43-66 | for every rpm a run without delays admits 2 rpm requests within a millisecond |
| `ProxyLimiter.ThriceWhenStale` | rust-proxy/src/rate_limit.rs:12-17 | for every rpm >= 1 a run with delays of one millisecond admits 3 rpm requests in 60 seconds |
| `ProxyLimiter.HarmlessLagIff` | rust-proxy/src/rate_limit.rs:12-17 | all runs with delays up to L keep the 60-second bound iff L = 0 |
| `BackendLimiter.RateLimitMiddleware` | internal/api/middleware.go:138-161 | an uninterrupted request is its INCR step followed by its EXPIRE step; let through iff Redis failed or the count is at most 100 |
| `BackendLimiter.AdmittedIff` | internal/api/middleware.go:144-157 | in every run a request is admitted iff Redis failed it or its count is at most 100 |
| `BackendLimiter.OneExpirePerStart` | internal/api/middleware.go:150-152 | in every run each answered request that started a counter sends one EXPIRE, and no other request sends any |
| `BackendLimiter.ExpireEndsTheLife` | internal/api/middleware.go:150-157 | in every run, after EXPIRE at time d the hits of that counter are before d + 60000, whatever is refused, and an answered request from then on is admitted with count 1 |
| `BackendLimiter.LifetimeLimits` | internal/api/middleware.go:144-157 | in every run lives of a counter start a minute apart or more, and one life admits at most 100 |
| `BackendLimiter.AnyMinuteLimit` | internal/api/middleware.go:144-157 | at most 200 counted admissions per address in any closed 60 seconds, 199 in any half-open one |
| `BackendLimiter.WorstMinuteIsReached` | internal/api/middleware.go:150-153 | one run reaches both bounds |
| `BackendLimiter.LostExpireLocksOut` | internal/api/middleware.go:150-157 | a spent counter without deadline or pending EXPIRE refuses every later answered request, in every continuation |
| `BackendLimiter.LockedOutIff` | internal/api/middleware.go:144-157 | an address is refused in every continuation iff its counter is in that state |
| `BackendLimiter.LockoutIsReached` | internal/api/middleware.go:144-153 | one hundred requests with the only EXPIRE lost reach it |
| `Fnv.XorBitwise` | risc-zero/guest/src/device_state.rs:10 | each bit of the exclusive or is set iff the two bits differ |
| `Fnv.ComputeHash` | risc-zero/guest/src/device_state.rs:7-14 | the loop computes the left fold of the state update from the offset basis |
| `Fnv.HashIs` | risc-zero/guest/src/device_state.rs:7-14 | 14695981039346656037 for no bytes; each byte: bitwise exclusive or, then times 1099511628211 modulo 2^64 |
| `Fnv.UpdateBijective` | risc-zero/guest/src/device_state.rs:10-11 | for each byte the update is a bijection of 64-bit words with an explicit inverse |
| `Fnv.UpdateSeparatesBytes` | risc-zero/guest/src/device_state.rs:10-11 | from any state different bytes lead to different states |
| `Fnv.CommonSuffix` | risc-zero/guest/src/compliance_check.rs:20-24 | hash(p + s) = hash(q + s) if and only if hash(p) = hash(q) |
| `Fnv.OneByteNeverCollides` | risc-zero/guest/src/compliance_check.rs:20-24 | inputs differing in exactly one byte have different hashes |
| `Hex.HexValueOfHex` | risc-zero/guest/src/compliance_check.rs:37-51 | printed digits read back as the number the bytes stand for |
| `Hex.HexOfAt` | risc-zero/guest/src/compliance_check.rs:37-51 | digits 2i and 2i + 1 are the high and low half of byte i, from 0-9a-f |
| `Hex.HexInjective` | risc-zero/guest/src/credential_verify.rs:16-36 | different bytes print differently |
| `Hex.WordBytesValue` | risc-zero/guest/src/compliance_check.rs:26-36 | the eight shifted bytes stand for the word itself |
| `Compliance.ComputeConfigHash` | risc-zero/guest/src/compliance_check.rs:17-53 | the two loops print the hash of the configuration's bytes |
| `Compliance.ConfigHashReadsBack` | risc-zero/guest/src/compliance_check.rs:17-53 | 16 lower-case digits that read back as the 64-bit FNV-1a hash |
| `Compliance.ConfigHashFaithful` | risc-zero/guest/src/compliance_check.rs:17-53 | printed hashes agree if and only if the 64-bit hashes agree |
| `Text.EncodeCharReads` | risc-zero/guest/src/compliance_check.rs:21 | one to four bytes by code point; the first gives the length and top bits, the others six bits each (RFC 3629) |
| `Text.Utf8Injective` | risc-zero/guest/src/compliance_check.rs:21 | different texts have different bytes |
| `Text.LowerCharIs` | risc-zero/guest/src/compliance_check.rs:58 | A-Z become a-z and no other character changes |
| `Text.IsWhitespaceIff` | risc-zero/guest/src/compliance_check.rs:67 | the 25 white-space code points |
| `Text.IsHexDigitIff` | risc-zero/guest/src/device_state.rs:66 | the 22 hex digits |
| `Text.SplitOfJoin` | risc-zero/guest/src/compliance_check.rs:66 | splitting undoes joining separator-free pieces |
| `Text.JoinOfSplit` | risc-zero/guest/src/compliance_check.rs:66 | joining undoes splitting, and no piece holds the separator |
| `Text.TrimAbsorbsEnd` | risc-zero/guest/src/compliance_check.rs:67-69 | trimming the end first changes no trimmed text |
| `Text.TrimIs` | risc-zero/guest/src/compliance_check.rs:67-69 | trimming takes away exactly the blank ends |
| `Compliance.ExtractManufacturer` | risc-zero/guest/src/compliance_check.rs:65-73 | the first piece with the key, or the missing-field error |
| `Compliance.ExtractFirmwareVersion` | risc-zero/guest/src/compliance_check.rs:75-83 | the first piece with the key, or "unknown" |
| `Compliance.FieldIs` | risc-zero/guest/src/compliance_check.rs:65-83 | a field's value is the trimmed rest of the first trimmed piece that starts with its name and an equals sign |
| `Compliance.NoFieldIs` | risc-zero/guest/src/compliance_check.rs:65-83 | without such a piece there is no value |
| `Compliance.PrintedPieceValue` | risc-zero/guest/src/compliance_check.rs:67-69 | a padded key=value piece reads as its trimmed value for its own key and as nothing for any other |
| `Compliance.ConfigRoundTrip` | risc-zero/guest/src/compliance_check.rs:65-83 | for any printed list of fields a name reads as the trimmed value of the first field with it, or as nothing |
| `Compliance.VerifyCompliance` | risc-zero/guest/src/compliance_check.rs:94-128 | fails iff no manufacturer is given; verified iff all four conditions on the extracted fields hold |
| `Compliance.KnownHashIff` | risc-zero/guest/src/compliance_check.rs:8-12 | a firmware hash is known iff up to letter case it is one of the three listed |
| `Compliance.CompliantVersionIff` | risc-zero/guest/src/compliance_check.rs:14 | the accepted versions are 1.0.0, 1.1.0, 1.2.0 and 2.0.0 |
| `Compliance.AllowedIff` | risc-zero/guest/src/compliance_check.rs:110-112 | a manufacturer is allowed iff up to letter case it is in the list |
| `Decimals.LexLeTransitive` | risc-zero/guest/src/compliance_check.rs:114 | a device meeting a minimum version meets every lower one |
| `Decimals.LexLeIff` | risc-zero/guest/src/compliance_check.rs:114 | the text order: a prefix, or smaller at the first difference |
| `Decimals.TextOrderIff` | risc-zero/guest/src/compliance_check.rs:114 | against single-digit versions text order is numeric order unless the first differing component has several digits and a smaller first digit |
| `Compliance.MinimumIsNumericIff` | risc-zero/guest/src/compliance_check.rs:114 | for every a.b.c and every listed version the comparison is numeric except for 2.0.0 with a = 1xx and 1.2.0 with a = 1, b = 1xx |
| `Compliance.MinimumFails` | risc-zero/guest/src/compliance_check.rs:114 | 2.0.0 passes for 10.0.0 and 1.2.0 for 1.10.0 |
| `Compliance.OnlyTwoDigestsAreKnown` | risc-zero/guest/src/compliance_check.rs:8-12 | a 64-digit hash is known iff it is the first or the third entry up to case |
| `Credentials.PossessionIff` | risc-zero/guest/src/credential_verify.rs:7-39 | accepted iff the credential has eight bytes and the proof is "pop:" and, up to case, the hex of its first sixteen |
| `Credentials.WellFormedIff` | risc-zero/guest/src/credential_verify.rs:41-48 | well formed iff at least 32 characters, all hex digits or colons |
| `Credentials.WellFormedIsAscii` | risc-zero/guest/src/credential_verify.rs:41-48 | a well-formed credential is ASCII with at least 32 characters |
| `Credentials.ProofBindsCredential` | risc-zero/guest/src/credential_verify.rs:7-48 | two well-formed credentials accepting one proof agree on sixteen characters |
| `Credentials.VerdictIs` | risc-zero/guest/src/credential_verify.rs:64-87 | the error iff start >= end, and each of the three flags and the time on its own |
| `Credentials.AcceptedIff` | risc-zero/guest/src/credential_verify.rs:64-87 | all checks pass iff the window starts at 0 and is non-empty, the format holds and the proof is the hex of the first sixteen characters |
| `DeviceState.SplitN.Next` | risc-zero/guest/src/device_state.rs:27-31 | each call yields the next of at most n pieces and leaves the rest unread |
| `DeviceState.VerifyAuthorization` | risc-zero/guest/src/device_state.rs:19-40 | the iterator-driven parser gives the same result and error as the specification, for every text |
| `DeviceState.AuthorizeBySplit` | risc-zero/guest/src/device_state.rs:19-40 | against the split at every colon: which result or error follows from the number of pieces, the first and the second |
| `DeviceState.AuthorizeIff` | risc-zero/guest/src/device_state.rs:19-40 | accepted iff the text is auth:identity:action:nonce with a non-empty colon-free identity |
| `DeviceState.AuthorizeReads` | risc-zero/guest/src/device_state.rs:19-40 | reading a printed authorization gives back its identity, so the identity is unique |
| `DeviceState.AcceptedIff` | risc-zero/guest/src/device_state.rs:42-112 | accepted iff different non-empty hex hashes, non-empty data, and a listed controller authorizes the action |
| `DeviceState.OutputIs` | risc-zero/guest/src/device_state.rs:86-112 | the whole output: error, authorized for the four controllers, valid, hashes given back, time 0 |
| `DeviceState.ChainStates` | risc-zero/guest/src/device_state.rs:86-112 | a run of accepted transitions has only non-empty hex states, no repeated neighbours, and listed controllers |
| `Circuits.MetadataIdentity` | circuits/src/pai_verify.nr:33-35 | the metadata constraint holds of all field elements |
| `Circuits.SelfIdentity` | circuits/src/paa_verify.nr:22-24 | the root identity constraint holds of all field elements |
| `Circuits.DacMeans` | circuits/src/dac_verify.nr:7-33 | the DAC constraints mean key, secret, serial and distinctness conditions, with the secret equal to the key |
| `Circuits.AcceptsIff` | circuits/src/main.nr:19-71 | for all field inputs, any p > 5 and any hash the circuit accepts exactly the reduced relation |
| `Circuits.OneClaimAccepted` | circuits/src/compliance_proof.nr:35-40 | in compliance mode exactly one claim is accepted: 1 iff compliant |
| `Circuits.ClaimIsFreeElsewhere` | circuits/src/main.nr:40-70 | in the other modes the claim does not matter |
| `Circuits.WitnessUnique` | circuits/src/main.nr:49-70 | with an injective one-element hash the public inputs determine the private keys and secrets used |
| `Circuits.FingerprintIsFree` | circuits/src/device_identity.nr:10-40 | any non-zero hardware fingerprint is accepted in place of another |
| `Circuits.EverySelectorAccepts` | circuits/src/main.nr:42-70 | every selector has accepted inputs |
| `Provisioning.StepKeeps` | internal/services/provisioning_service.go:33-154 | every step keeps the invariant, rows only gain status, serials stay unique and records genuine |
| `Provisioning.MatchedIff` | internal/services/provisioning_service.go:98-123 | in every state and at every time GET lets a request through iff it works, the device's record is live, and the request gives its tenant and non-empty hashed challenge |
| `Provisioning.RefusedBecause` | internal/services/provisioning_service.go:89-123 | which of the six refusals, in the order of the checks |
| `Provisioning.ProvisionsIff` | internal/services/provisioning_service.go:98-138 | in every reachable state an uninterrupted call succeeds iff the request is right; then the row is provisioned and the record gone |
| `Provisioning.ThirtyMinutes` | internal/services/provisioning_service.go:80-138 | from the start, the right answer provisions the device at every time below 1800000 ms after SET and at none from then on |
| `Provisioning.ProvisionedOnlyByAnswer` | internal/services/provisioning_service.go:98-133 | a row turns provisioned only in the write of a call that gave the tenant and hashed challenge of the enrollment's record, live when read |
| `Provisioning.ProvisionedWasAnswered` | internal/services/provisioning_service.go:98-133 | every provisioned device has such a call |
| `Provisioning.NoSuccessOnceOver` | internal/services/provisioning_service.go:78-102 | once an enrolled device has no live record, every provisioning call that starts for it fails, for ever |
| `Provisioning.NoSuccessAfterDelete` | internal/services/provisioning_service.go:98-135 | no call starting after a successful DEL succeeds for that device |
| `Provisioning.StatusMovesForward` | internal/services/provisioning_service.go:141-154 | after enrollment no query answers below the status at the start; with a working EXISTS none above the status at the end |
| `Provisioning.LaterQueriesReportLater` | internal/services/provisioning_service.go:141-154 | a query started after another answered with a working EXISTS never reports an earlier status, though both read twice |
| `Provisioning.NeverContradictedIff` | internal/services/provisioning_service.go:141-154 | an answer is never contradicted by a later query, in any continuation, iff it is not ahead of the status |
| `Provisioning.StatusGoesBackDuringEnrollment` | internal/services/provisioning_service.go:53-82 | before enrollment returns the status does go back from enrolled to pending |
| `Provisioning.StatusGoesBackFromStart` | internal/services/provisioning_service.go:33-82 | for every complete request a run from the start reaches that |
| `Provisioning.ForwardIffSettled` | internal/services/provisioning_service.go:53-82 | in every reachable state all continuations move a device's status only forward iff its enrollment is past its SET |
| `Provisioning.SuccessOnceOverIff` | internal/services/provisioning_service.go:98-138 | once no live record is left a call can still succeed iff it has passed its checks and not failed |
| `Provisioning.SuccessAfterDeleteIff` | internal/services/provisioning_service.go:98-138 | after a successful DEL a call can still succeed iff its GET preceded it, passed, and the call has not failed |
| `Provisioning.OverlappingCallsBothSucceed` | internal/services/provisioning_service.go:33-138 | for every complete request and non-empty hashed challenge a run from the start lets two calls succeed with it and provisions the device |
| `Provisioning.ProvisioningService.EnrollDevice` | internal/services/provisioning_service.go:33-86 | an uninterrupted enrollment is its three steps; when it is refused and why, and the new row and record; on error nothing changes |
| `Provisioning.ProvisioningService.ProvisionSecureElement` | internal/services/provisioning_service.go:88-139 | an uninterrupted provisioning call is its four steps; it succeeds iff every read and write works and the answer is right, with the new row and record; on error nothing changes |
| `Provisioning.ProvisioningService.GetProvisioningStatus` | internal/services/provisioning_service.go:141-154 | an uninterrupted query is its two steps, with either read failing or not; without failures it answers the current status |

## Left out

- ProxyLimiter.AnyMinuteLimit: assumes each INCR falls in the window of its clock reading; `HarmlessLagIff` shows that no fixed allowance of a millisecond or more keeps the bound.
- BackendLimiter.AnyMinuteLimit: bounds admissions decided by the counter; requests let through because Redis failed are unlimited by design of the source.
- Attestations.ComputeAttestationStatistics: is the per-device part; the fleet-wide figures over the rounded means and the distributions by type and status decide nothing.
- AnomalyDetection.OrderDoesNotMatter: is about tables without missing values; with them scores change rows (`OwnScoresIff`).
- Floating-point rounding (other than the rounding to digits), overflow, infinities and not-a-number metric values.
- Calendar windows, date parsing and formatting: timestamps are integer milliseconds.
- Clustering and silhouette scores: k-means is a library, and its result is only reformatted.
- Converting request dictionaries to vectors and tables, and the choice of the identifier column.
- Redis restarts, eviction and clock skew; the choice of the client address from headers; reading the limit from the environment on each request.
- The device service's own edits and deletions of rows, which bypass the provisioning protocol.
- SHA-256, the enrollment token, random challenges, UUID parsing, pedersen hashing, proof generation and receipts: arbitrary functions, parameters, or absent; so are failures of the random source.
- HTTP, JSON, logging, front end, agents, certificate handling and deployment files.
